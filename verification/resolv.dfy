/** `DNSSetup` (src/sysconfig/linux.rs): a guard over the resolver file. Acquiring it
    saves the file's bytes and replaces them with a single `nameserver 127.0.0.1`
    line; releasing it writes the saved bytes back. The file is a value threaded
    through both transitions, and release is an explicit call. */
module ResolvConf {
  import opened Wrappers
  import opened Utf8

  /** The resolver file: absent (cannot be opened) or present with its bytes. */
  datatype FileState = Missing | Present(content: seq<bv8>)

  /** The guard: the file's bytes as they were before the override. */
  datatype DNSSetup = DNSSetup(original: seq<bv8>)

  datatype IoError =
    | OpenFailed   // `OpenOptions::open` failed: the file does not exist
    | NotUtf8      // the saved bytes are not UTF-8, so logging them panics

  /** The file after a transition, with the transition's result. */
  datatype Step<+T> = Step(file: FileState, result: Result<T, IoError>)

  /** The override written on acquisition: the twenty ASCII bytes of
      `nameserver 127.0.0.1`, without a trailing newline. */
  const OverrideLine: seq<bv8> :=
    [0x6E, 0x61, 0x6D, 0x65, 0x73, 0x65, 0x72, 0x76, 0x65, 0x72,
     0x20, 0x31, 0x32, 0x37, 0x2E, 0x30, 0x2E, 0x30, 0x2E, 0x31]

  /** The override line passes the UTF-8 check. */
  lemma OverrideLineIsUtf8()
    ensures ValidUtf8(OverrideLine)
  {
    assert IsAscii(OverrideLine);
    AsciiIsValid(OverrideLine);
  }

  /** `write_all` at offset 0 of a file opened without truncation: the written bytes
      replace the first `|data|` bytes, the rest of the old content stays, and the
      file grows only if `data` is longer. */
  function WriteAtStart(cur: seq<bv8>, data: seq<bv8>): (r: seq<bv8>)
    ensures |r| == if |data| < |cur| then |cur| else |data|
    ensures forall i | 0 <= i < |r| :: r[i] == if i < |data| then data[i] else cur[i]
  {
    if |data| < |cur| then data + cur[|data|..] else data
  }

  /** `DNSSetup::new`. The original bytes are logged through `from_utf8(..).unwrap()`
      only when info-level logging is on (`infoEnabled`), so only then do non-UTF-8
      bytes abort it; they do so before the file is truncated. */
  function Acquire(f: FileState, infoEnabled: bool): (r: Step<DNSSetup>)
    ensures r.result.Success? <==> f.Present? && (infoEnabled ==> ValidUtf8(f.content))
    ensures r.result.Success? ==>
              r.result.value.original == f.content && r.file == Present(OverrideLine)
    ensures r.result.Failure? ==> r.file == f
    ensures f.Missing? ==> r.result == Failure(OpenFailed)
    ensures f.Present? && infoEnabled && !ValidUtf8(f.content) ==> r.result == Failure(NotUtf8)
  {
    match f
    case Missing => Step(f, Failure(OpenFailed))
    case Present(buf) =>
      if infoEnabled && !ValidUtf8(buf) then Step(f, Failure(NotUtf8))
      else Step(Present(OverrideLine), Success(DNSSetup(buf)))
  }

  /** `Drop for DNSSetup`, as written: the file is opened for writing without
      truncation and the saved bytes are written from offset 0. */
  function Release(g: DNSSetup, f: FileState): (r: Step<()>)
    ensures r.result.Success? <==> f.Present?
    ensures f.Missing? ==> r == Step(Missing, Failure(OpenFailed))
    ensures f.Present? ==> r.file.Present?
    ensures f.Present? ==>
              |r.file.content| == if |g.original| < |f.content| then |f.content| else |g.original|
    ensures f.Present? ==> r.file.content[..|g.original|] == g.original
    ensures f.Present? && |g.original| < |f.content| ==>
              r.file.content[|g.original|..] == f.content[|g.original|..]
  {
    match f
    case Missing => Step(Missing, Failure(OpenFailed))
    case Present(cur) => Step(Present(WriteAtStart(cur, g.original)), Success(()))
  }

  /** Release puts back exactly the saved bytes iff they are at least as long as
      what the file holds at release time. */
  lemma ReleaseExactIff(g: DNSSetup, cur: seq<bv8>)
    ensures Release(g, Present(cur)).file == Present(g.original) <==> |g.original| >= |cur|
  {
    var r := Release(g, Present(cur)).file.content;
    if |g.original| < |cur| {
      assert |r| == |cur|;
    }
  }

  /** Acquire followed by release restores the original bytes iff they are at least
      twenty bytes long; a shorter original comes back followed by the tail of the
      override line. */
  lemma AcquireReleaseRoundTrip(b: seq<bv8>, infoEnabled: bool)
    requires infoEnabled ==> ValidUtf8(b)
    ensures var a := Acquire(Present(b), infoEnabled);
            && a.result.Success?
            && Release(a.result.value, a.file).file
               == Present(if |b| < |OverrideLine| then b + OverrideLine[|b|..] else b)
    ensures var a := Acquire(Present(b), infoEnabled);
            Release(a.result.value, a.file).file == Present(b) <==> |b| >= 20
  {
    var a := Acquire(Present(b), infoEnabled);
    assert |OverrideLine| == 20;
    ReleaseExactIff(a.result.value, OverrideLine);
  }

  /** An empty resolver file is not restored: after acquire and release it holds
      the whole override line. */
  lemma EmptyOriginalNotRestored(infoEnabled: bool)
    ensures var a := Acquire(Present([]), infoEnabled);
            && a.result.Success?
            && Release(a.result.value, a.file).file == Present(OverrideLine)
            && Release(a.result.value, a.file).file != Present([])
  {
    AcquireReleaseRoundTrip([], infoEnabled);
    assert |OverrideLine| == 20;
  }

  /** Corrected release: the file is truncated before the saved bytes are written
      (`OpenOptions::truncate(true)`), so its content becomes exactly `original`. */
  function RestoreTruncating(g: DNSSetup, f: FileState): (r: Step<()>)
    ensures r.result.Success? <==> f.Present?
    ensures f.Missing? ==> r == Step(Missing, Failure(OpenFailed))
    ensures f.Present? ==> r.file == Present(g.original)
  {
    match f
    case Missing => Step(Missing, Failure(OpenFailed))
    case Present(_) => Step(Present(WriteAtStart([], g.original)), Success(()))
  }

  /** With the corrected release, acquire then release restores any original
      byte-for-byte. */
  lemma TruncatingRoundTrip(b: seq<bv8>, infoEnabled: bool)
    requires infoEnabled ==> ValidUtf8(b)
    ensures var a := Acquire(Present(b), infoEnabled);
            a.result.Success? && RestoreTruncating(a.result.value, a.file).file == Present(b)
  {
  }

  /** Writing the saved bytes a second time changes nothing. */
  lemma ReleaseIdempotent(g: DNSSetup, f: FileState)
    ensures Release(g, Release(g, f).file).file == Release(g, f).file
  {
    if f.Present? {
      var once := Release(g, f).file.content;
      var twice := Release(g, Present(once)).file.content;
      assert |twice| == |once|;
      assert forall i | 0 <= i < |twice| :: twice[i] == once[i];
    }
  }

  /** The override line passes the UTF-8 check, so a second guard taken while the
      first is active succeeds and saves the override itself. Released in reverse
      order (as two guards in one scope are dropped), the file ends as after a
      single acquire and release; released in acquisition order, the override line
      stays in effect. */
  lemma NestedGuards(b: seq<bv8>, infoEnabled: bool)
    requires infoEnabled ==> ValidUtf8(b)
    ensures var a1 := Acquire(Present(b), infoEnabled);
            var a2 := Acquire(a1.file, infoEnabled);
            && a2.result.Success?
            && a2.result.value.original == OverrideLine
            && Release(a1.result.value, Release(a2.result.value, a2.file).file).file
               == Release(a1.result.value, a1.file).file
            && var r2 := Release(a2.result.value, Release(a1.result.value, a2.file).file);
               r2.file.Present? && r2.file.content[..20] == OverrideLine
  {
    OverrideLineIsUtf8();
    assert |OverrideLine| == 20;
    ReleaseExactIff(DNSSetup(OverrideLine), OverrideLine);
  }
}
