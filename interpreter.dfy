/** The action interpreter: `PatchSourceFile` after the source file has been read.
    A zero-filled target buffer of `TargetSize` bytes is filled by the actions of
    the patch, each a header number (kind in the low two bits, length minus one
    above them) possibly followed by literal bytes or a signed displacement. */
module Interpreter {
  import opened Basics
  import opened VarInt
  import opened Container
  import Crc32

  /** The four action kinds, `sourceRead` .. `targetCopy`. */
  datatype ActionKind = SourceRead | TargetRead | SourceCopy | TargetCopy

  datatype ApplyError =
    | SourceChecksumMismatch
    | ActionTruncated       // an action header runs off the end of the actions
    | CopyOffsetTruncated   // a copy's displacement runs off the end of the actions
    | CursorOutOfBounds     // an action reads or writes outside its buffer

  /** What `PatchSourceFile` returns: the target, the target with a checksum error,
      or an error alone. */
  datatype Outcome = Done(target: seq<byte>) | TargetMismatch(target: seq<byte>) | Failed(error: ApplyError)

  /** The interpreter state: the target buffer, the three cursors and the actions not
      yet read. */
  datatype State = State(
    target: seq<byte>,
    outputOffset: nat,
    sourceOffset: nat,
    targetOffset: nat,
    remaining: seq<byte>)

  /** The kind in the low two bits of a header. */
  function KindOf(header: nat): ActionKind
  {
    match header % 4
    case 0 => SourceRead
    case 1 => TargetRead
    case 2 => SourceCopy
    case _ => TargetCopy
  }

  /** The length in the bits above the kind, plus one. */
  function LengthOf(header: nat): nat
  {
    header / 4 + 1
  }

  function KindIndex(kind: ActionKind): nat
  {
    match kind
    case SourceRead => 0
    case TargetRead => 1
    case SourceCopy => 2
    case TargetCopy => 3
  }

  /** The header a patch writer emits for an action of `kind` and `length` bytes. */
  function ActionHeader(kind: ActionKind, length: nat): nat
    requires length >= 1
  {
    4 * (length - 1) + KindIndex(kind)
  }

  /** Headers and (kind, length) pairs with length at least one correspond one to one. */
  lemma HeaderFields(kind: ActionKind, length: nat, header: nat)
    requires length >= 1
    ensures KindOf(ActionHeader(kind, length)) == kind && LengthOf(ActionHeader(kind, length)) == length
    ensures LengthOf(header) >= 1 && ActionHeader(KindOf(header), LengthOf(header)) == header
  {
  }

  /** A copy cursor moved by a displacement: an odd `data` moves it back by
      `data / 2`, an even one forward. */
  function Displace(cursor: nat, data: nat): int
  {
    if data % 2 == 1 then cursor - data / 2 else cursor + data / 2
  }

  /** The displacement a patch writer emits to move a cursor by `delta`. */
  function Displacement(delta: int): nat
  {
    if delta < 0 then 2 * -delta + 1 else 2 * delta
  }

  lemma DisplaceDisplacement(cursor: nat, delta: int)
    ensures Displace(cursor, Displacement(delta)) == cursor + delta
  {
  }

  /** `t` with `data` written at `at` (Go's `copy` into `t[at:]`). */
  function Splice(t: seq<byte>, at: nat, data: seq<byte>): (r: seq<byte>)
    requires at + |data| <= |t|
    ensures |r| == |t|
  {
    t[..at] + data + t[at + |data|..]
  }

  /** A splice changes exactly the bytes it writes. */
  lemma SpliceAt(t: seq<byte>, at: nat, data: seq<byte>)
    requires at + |data| <= |t|
    ensures var r := Splice(t, at, data);
      r[at..at + |data|] == data &&
      forall i :: 0 <= i < |t| && !(at <= i < at + |data|) ==> r[i] == t[i]
  {
    var r := Splice(t, at, data);
    assert r[at..at + |data|] == data;
    forall i | 0 <= i < |t| && !(at <= i < at + |data|)
      ensures r[i] == t[i]
    {
      if i < at {
        assert r[i] == t[..at][i];
      } else {
        assert r[i] == t[at + |data|..][i - at - |data|];
      }
    }
  }

  /** The TargetCopy loop: `n` times, copy the byte at `from` to `at` and advance
      both, so that later bytes may be read after an earlier step wrote them. */
  function OverlapCopy(t: seq<byte>, at: nat, from: nat, n: nat): (r: seq<byte>)
    requires at + n <= |t| && from + n <= |t|
    ensures |r| == |t|
    decreases n
  {
    if n == 0 then t else OverlapCopy(t[at := t[from]], at + 1, from + 1, n - 1)
  }

  /** `after` differs from `before` at most in positions `lo` to `hi - 1`. */
  ghost predicate Unchanged(before: seq<byte>, after: seq<byte>, lo: nat, hi: nat)
  {
    |after| == |before| && forall i :: 0 <= i < |before| && !(lo <= i < hi) ==> after[i] == before[i]
  }

  /** Each of the `n` bytes written from `at` on is the byte at its read position
      (`from` on): as written earlier in the same copy when that position has been
      written already, and as it was before the copy otherwise. */
  ghost predicate CopiedForward(before: seq<byte>, after: seq<byte>, at: nat, from: nat, n: nat)
  {
    |after| == |before| && at + n <= |before| && from + n <= |before| &&
    forall i {:trigger after[i]} :: at <= i < at + n ==>
      var src := from + (i - at);
      after[i] == if at <= src < i then after[src] else before[src]
  }

  /** The TargetCopy loop writes nothing outside the `n` positions from `at` on. */
  lemma {:induction false} OverlapCopyKeeps(t: seq<byte>, at: nat, from: nat, n: nat)
    requires at + n <= |t| && from + n <= |t|
    ensures Unchanged(t, OverlapCopy(t, at, from, n), at, at + n)
    decreases n
  {
    if n > 0 {
      var t1 := t[at := t[from]];
      OverlapCopyKeeps(t1, at + 1, from + 1, n - 1);
      var r := OverlapCopy(t, at, from, n);
      assert r == OverlapCopy(t1, at + 1, from + 1, n - 1);
      forall i | 0 <= i < |t| && !(at <= i < at + n)
        ensures r[i] == t[i]
      {
        assert r[i] == t1[i];
      }
    }
  }

  /** What the TargetCopy loop computes, byte by byte. */
  lemma {:induction false} OverlapCopyAt(t: seq<byte>, at: nat, from: nat, n: nat)
    requires at + n <= |t| && from + n <= |t|
    ensures CopiedForward(t, OverlapCopy(t, at, from, n), at, from, n)
    ensures Unchanged(t, OverlapCopy(t, at, from, n), at, at + n)
    decreases n
  {
    OverlapCopyKeeps(t, at, from, n);
    if n > 0 {
      var t1 := t[at := t[from]];
      OverlapCopyAt(t1, at + 1, from + 1, n - 1);
      var r := OverlapCopy(t, at, from, n);
      assert r == OverlapCopy(t1, at + 1, from + 1, n - 1);
      assert r[at] == t1[at] == t[from];
      forall i | at <= i < at + n
        ensures var src := from + (i - at);
          r[i] == if at <= src < i then r[src] else t[src]
      {
        if i > at {
          var src := from + (i - at);
          assert r[i] == if at + 1 <= src < i then r[src] else t1[src];
        }
      }
    }
  }

  /** With the read position one behind the write position, the TargetCopy loop
      repeats the byte before the output `n` times (run-length expansion). */
  lemma {:induction false} RunLength(t: seq<byte>, at: nat, from: nat, n: nat)
    requires from + 1 == at && at + n <= |t|
    ensures forall i :: at <= i < at + n ==> OverlapCopy(t, at, from, n)[i] == t[from]
  {
    var r := OverlapCopy(t, at, from, n);
    OverlapCopyAt(t, at, from, n);
    forall i | at <= i < at + n
      ensures r[i] == t[from]
    {
      var j := at;
      while j < i
        invariant at <= j <= i && r[j] == t[from]
      {
        j := j + 1;
        assert r[j] == r[j - 1];
      }
    }
  }

  /** Byte by byte is not a bulk copy: expanding one byte over an overlapping
      range gives a run, where copying the range at once would not. */
  lemma OverlapNotBulk()
    ensures OverlapCopy([7, 0, 0, 0], 1, 0, 3) == [7, 7, 7, 7]
    ensures Splice([7, 0, 0, 0], 1, [7, 0, 0, 0][0..3]) == [7, 7, 0, 0]
  {
    assert OverlapCopy([7, 0, 0, 0], 1, 0, 3) == OverlapCopy([7, 7, 0, 0], 2, 1, 2);
    assert OverlapCopy([7, 7, 0, 0], 2, 1, 2) == OverlapCopy([7, 7, 7, 0], 3, 2, 1);
    assert OverlapCopy([7, 7, 7, 0], 3, 2, 1) == OverlapCopy([7, 7, 7, 7], 4, 3, 0);
    assert [7, 0, 0, 0][0..3] == [7, 0, 0];
  }

  /** SourceRead: copy `length` bytes from the source at the output offset. */
  function SourceReadStep(source: seq<byte>, st: State, length: nat, rest: seq<byte>): Result<State, ApplyError>
  {
    var out := st.outputOffset;
    if out + length > |st.target| || out + length > |source| then Err(CursorOutOfBounds)
    else Ok(st.(target := Splice(st.target, out, source[out..out + length]),
                outputOffset := out + length, remaining := rest))
  }

  /** TargetRead: copy `length` literal bytes from the action stream. */
  function TargetReadStep(st: State, length: nat, rest: seq<byte>): Result<State, ApplyError>
  {
    var out := st.outputOffset;
    if out + length > |st.target| || length > |rest| then Err(CursorOutOfBounds)
    else Ok(st.(target := Splice(st.target, out, rest[..length]),
                outputOffset := out + length, remaining := rest[length..]))
  }

  /** SourceCopy: move the source cursor, then copy `length` source bytes from it. */
  function SourceCopyStep(source: seq<byte>, st: State, length: nat, data: nat, rest: seq<byte>)
    : Result<State, ApplyError>
  {
    var out := st.outputOffset;
    var from := Displace(st.sourceOffset, data);
    if from < 0 || out + length > |st.target| || from + length > |source| then Err(CursorOutOfBounds)
    else Ok(st.(target := Splice(st.target, out, source[from..from + length]),
                outputOffset := out + length, sourceOffset := from + length, remaining := rest))
  }

  /** TargetCopy: move the target cursor, then run the byte-by-byte copy. */
  function TargetCopyStep(st: State, length: nat, data: nat, rest: seq<byte>): Result<State, ApplyError>
  {
    var out := st.outputOffset;
    var from := Displace(st.targetOffset, data);
    if from < 0 || out + length > |st.target| || from + length > |st.target| then Err(CursorOutOfBounds)
    else Ok(st.(target := OverlapCopy(st.target, out, from, length),
                outputOffset := out + length, targetOffset := from + length, remaining := rest))
  }

  /** One turn of the action loop. */
  function Step(source: seq<byte>, st: State): (r: Result<State, ApplyError>)
    requires |st.remaining| > 0
    ensures r.Ok? ==> |r.value.target| == |st.target| && |r.value.remaining| < |st.remaining|
  {
    match Decode64(st.remaining)
    case Err(_) => Err(ActionTruncated)
    case Ok((header, rest)) =>
      Decode64Suffix(st.remaining);
      var length := LengthOf(header);
      match KindOf(header)
      case SourceRead => SourceReadStep(source, st, length, rest)
      case TargetRead => TargetReadStep(st, length, rest)
      case SourceCopy =>
        (match Decode64(rest)
         case Err(_) => Err(CopyOffsetTruncated)
         case Ok((data, rest')) =>
           Decode64Suffix(rest);
           SourceCopyStep(source, st, length, data, rest'))
      case TargetCopy =>
        match Decode64(rest)
        case Err(_) => Err(CopyOffsetTruncated)
        case Ok((data, rest')) =>
          Decode64Suffix(rest);
          TargetCopyStep(st, length, data, rest')
  }

  /** The action loop until the actions run out or an action fails. */
  function Run(source: seq<byte>, st: State): (r: Result<State, ApplyError>)
    ensures r.Ok? ==> |r.value.target| == |st.target| && r.value.remaining == []
    ensures r.Err? ==> r.error != SourceChecksumMismatch
    decreases |st.remaining|
  {
    if |st.remaining| == 0 then Ok(st)
    else
      match Step(source, st)
      case Err(e) => Err(e)
      case Ok(next) => Run(source, next)
  }

  /** The state before the first action: `TargetSize` zero bytes, cursors at zero. */
  function Init(patch: Patch): State
  {
    State(seq(patch.targetSize, _ => 0), 0, 0, 0, patch.actions)
  }

  /** `PatchSourceFile` on the bytes read from the source file. */
  function Apply(patch: Patch, source: seq<byte>): (r: Outcome)
    requires |source| == patch.sourceSize
    ensures r == Failed(SourceChecksumMismatch) <==> Crc32.Checksum(source) != patch.sourceChecksum
    ensures r.Done? ==> |r.target| == patch.targetSize && Crc32.Checksum(r.target) == patch.targetChecksum
    ensures r.TargetMismatch? ==>
      |r.target| == patch.targetSize && Crc32.Checksum(r.target) != patch.targetChecksum
  {
    if Crc32.Checksum(source) != patch.sourceChecksum then Failed(SourceChecksumMismatch)
    else
      match Run(source, Init(patch))
      case Err(e) => Failed(e)
      case Ok(final) =>
        if Crc32.Checksum(final.target) != patch.targetChecksum then TargetMismatch(final.target)
        else Done(final.target)
  }

  /** SourceRead writes the source bytes at the output offset, there and nowhere
      else, and moves only the output cursor. */
  lemma SourceReadEffect(source: seq<byte>, st: State, length: nat, rest: seq<byte>)
    requires SourceReadStep(source, st, length, rest).Ok?
    ensures var next := SourceReadStep(source, st, length, rest).value;
      var out := st.outputOffset;
      next.outputOffset == out + length && next.remaining == rest &&
      next.sourceOffset == st.sourceOffset && next.targetOffset == st.targetOffset &&
      next.target[out..out + length] == source[out..out + length] &&
      Unchanged(st.target, next.target, out, out + length)
  {
    SpliceAt(st.target, st.outputOffset, source[st.outputOffset..st.outputOffset + length]);
  }

  /** TargetRead writes the `length` bytes that follow its header, there and
      nowhere else, consumes them, and moves only the output cursor. */
  lemma TargetReadEffect(st: State, length: nat, rest: seq<byte>)
    requires TargetReadStep(st, length, rest).Ok?
    ensures var next := TargetReadStep(st, length, rest).value;
      var out := st.outputOffset;
      next.outputOffset == out + length && next.remaining == rest[length..] &&
      next.sourceOffset == st.sourceOffset && next.targetOffset == st.targetOffset &&
      next.target[out..out + length] == rest[..length] &&
      Unchanged(st.target, next.target, out, out + length)
  {
    SpliceAt(st.target, st.outputOffset, rest[..length]);
  }

  /** SourceCopy moves the source cursor by the displacement, writes the source
      bytes from there at the output offset, and leaves both cursors after the
      bytes they covered. */
  lemma SourceCopyEffect(source: seq<byte>, st: State, length: nat, data: nat, rest: seq<byte>)
    requires SourceCopyStep(source, st, length, data, rest).Ok?
    ensures var next := SourceCopyStep(source, st, length, data, rest).value;
      var out := st.outputOffset;
      var from := Displace(st.sourceOffset, data);
      from >= 0 && next.outputOffset == out + length && next.remaining == rest &&
      next.sourceOffset == from + length && next.targetOffset == st.targetOffset &&
      next.target[out..out + length] == source[from..from + length] &&
      Unchanged(st.target, next.target, out, out + length)
  {
    var from := Displace(st.sourceOffset, data);
    SpliceAt(st.target, st.outputOffset, source[from..from + length]);
  }

  /** TargetCopy moves the target cursor by the displacement and copies from there
      byte by byte: each written byte is the byte at the read position, as written
      earlier in the same action when that position has been written already. */
  lemma TargetCopyEffect(st: State, length: nat, data: nat, rest: seq<byte>)
    requires TargetCopyStep(st, length, data, rest).Ok?
    ensures var next := TargetCopyStep(st, length, data, rest).value;
      var out := st.outputOffset;
      var from := Displace(st.targetOffset, data);
      from >= 0 && next.outputOffset == out + length && next.remaining == rest &&
      next.targetOffset == from + length && next.sourceOffset == st.sourceOffset &&
      CopiedForward(st.target, next.target, out, from, length) &&
      Unchanged(st.target, next.target, out, out + length)
  {
    var from: nat := Displace(st.targetOffset, data);
    var next := TargetCopyStep(st, length, data, rest).value;
    assert next.target == OverlapCopy(st.target, st.outputOffset, from, length);
    OverlapCopyAt(st.target, st.outputOffset, from, length);
  }

  /** Every successful action advances the output offset by the length in its
      header and changes no target byte outside the range it covered. */
  lemma StepFrame(source: seq<byte>, st: State)
    requires |st.remaining| > 0 && Step(source, st).Ok?
    ensures var next := Step(source, st).value;
      next.outputOffset == st.outputOffset + LengthOf(Decode64(st.remaining).value.0) &&
      Unchanged(st.target, next.target, st.outputOffset, next.outputOffset)
  {
    var (header, rest) := Decode64(st.remaining).value;
    var length := LengthOf(header);
    match KindOf(header)
    case SourceRead =>
      assert Step(source, st) == SourceReadStep(source, st, length, rest);
      SourceReadEffect(source, st, length, rest);
    case TargetRead =>
      assert Step(source, st) == TargetReadStep(st, length, rest);
      TargetReadEffect(st, length, rest);
    case SourceCopy =>
      var (data, rest') := Decode64(rest).value;
      assert Step(source, st) == SourceCopyStep(source, st, length, data, rest');
      SourceCopyEffect(source, st, length, data, rest');
    case TargetCopy =>
      var (data, rest') := Decode64(rest).value;
      assert Step(source, st) == TargetCopyStep(st, length, data, rest');
      TargetCopyEffect(st, length, data, rest');
  }

  /** A patch without actions yields `TargetSize` zero bytes. */
  lemma NoActions(patch: Patch, source: seq<byte>)
    requires |source| == patch.sourceSize
    requires patch.actions == [] && Crc32.Checksum(source) == patch.sourceChecksum
    ensures Apply(patch, source).Done? || Apply(patch, source).TargetMismatch?
    ensures Apply(patch, source).target == seq(patch.targetSize, _ => 0)
  {
  }

  /** A patch whose one action reads the whole source, with both checksums those of
      the source, reproduces the source. */
  lemma IdentityPatch(patch: Patch, source: seq<byte>)
    requires 1 <= |source| <= 0x4000_0000_0000_0000
    requires patch.sourceSize == |source| && patch.targetSize == |source|
    requires patch.actions == Enc(ActionHeader(SourceRead, |source|))
    requires patch.sourceChecksum == Crc32.Checksum(source) && patch.targetChecksum == Crc32.Checksum(source)
    ensures Apply(patch, source) == Done(source)
  {
    var header := ActionHeader(SourceRead, |source|);
    HeaderFields(SourceRead, |source|, header);
    RoundTrip(header, []);
    assert patch.actions + [] == patch.actions;
    var st := Init(patch);
    var next := State(source, |source|, 0, 0, []);
    assert Splice(st.target, 0, source[0..|source|]) == source;
    assert Step(source, st) == Ok(next);
    assert Run(source, next) == Ok(next);
    assert Run(source, st) == Ok(next);
  }

  /** Go's `copy` of `data` into `target` at `at`. */
  method Copy(target: array<byte>, at: nat, data: seq<byte>)
    requires at + |data| <= target.Length
    modifies target
    ensures target[..] == Splice(old(target[..]), at, data)
  {
    forall i | 0 <= i < |data| {
      target[at + i] := data[i];
    }
    assert target[..] == Splice(old(target[..]), at, data);
  }

  /** A successful action leaves the rest of the run as it was. */
  lemma RunNext(source: seq<byte>, st: State, next: State)
    requires |st.remaining| > 0 && Step(source, st) == Ok(next)
    ensures Run(source, st) == Run(source, next)
  {
  }

  /** The TargetCopy loop of `PatchSourceFile`: one byte at a time, from the target
      cursor to the output cursor, both advancing; returns the two cursors. */
  method CopyWithin(target: array<byte>, at: nat, from: nat, length: nat)
      returns (outputOffset: nat, targetOffset: nat)
    requires at + length <= target.Length && from + length <= target.Length
    modifies target
    ensures target[..] == OverlapCopy(old(target[..]), at, from, length)
    ensures outputOffset == at + length && targetOffset == from + length
  {
    outputOffset, targetOffset := at, from;
    var n: nat := length;
    while n > 0
      invariant n <= length
      invariant outputOffset == at + (length - n) && targetOffset == from + (length - n)
      invariant OverlapCopy(target[..], outputOffset, targetOffset, n) == OverlapCopy(old(target[..]), at, from, length)
      decreases n
    {
      ghost var before := target[..];
      target[outputOffset] := target[targetOffset];
      assert target[..] == before[outputOffset := before[targetOffset]];
      outputOffset := outputOffset + 1;
      targetOffset := targetOffset + 1;
      n := n - 1;
    }
  }

  /** One pass of the loop in `PatchSourceFile`: decodes the next action from
      `remaining`, performs it on `target` and returns the new cursors and the
      rest of the action stream, or the error that ends the run. */
  method PerformAction(source: seq<byte>, target: array<byte>, outputOffset: nat, sourceOffset: nat,
                       targetOffset: nat, remaining: seq<byte>)
    returns (r: Result<(nat, nat, nat, seq<byte>), ApplyError>)
    requires |remaining| > 0
    modifies target
    ensures var st := State(old(target[..]), outputOffset, sourceOffset, targetOffset, remaining);
      match Step(source, st)
      case Err(e) => r == Err(e)
      case Ok(next) => r.Ok? && next == State(target[..], r.value.0, r.value.1, r.value.2, r.value.3)
  {
    ghost var st := State(target[..], outputOffset, sourceOffset, targetOffset, remaining);
    var action := ReadNum(remaining);
    if action.Err? {
      return Err(ActionTruncated);
    }
    var header := action.value.0;
    var rest := action.value.1;
    var length: nat := LengthOf(header);
    match KindOf(header)
    case SourceRead =>
      assert Step(source, st) == SourceReadStep(source, st, length, rest);
      if outputOffset + length > target.Length || outputOffset + length > |source| {
        return Err(CursorOutOfBounds);
      }
      Copy(target, outputOffset, source[outputOffset..outputOffset + length]);
      return Ok((outputOffset + length, sourceOffset, targetOffset, rest));
    case TargetRead =>
      assert Step(source, st) == TargetReadStep(st, length, rest);
      if outputOffset + length > target.Length || length > |rest| {
        return Err(CursorOutOfBounds);
      }
      Copy(target, outputOffset, rest[..length]);
      return Ok((outputOffset + length, sourceOffset, targetOffset, rest[length..]));
    case SourceCopy =>
      var offset := ReadNum(rest);
      if offset.Err? {
        assert Step(source, st) == Err(CopyOffsetTruncated);
        return Err(CopyOffsetTruncated);
      }
      var data := offset.value.0;
      var rest' := offset.value.1;
      assert Step(source, st) == SourceCopyStep(source, st, length, data, rest');
      var from := Displace(sourceOffset, data);
      if from < 0 || outputOffset + length > target.Length || from + length > |source| {
        return Err(CursorOutOfBounds);
      }
      Copy(target, outputOffset, source[from..from + length]);
      return Ok((outputOffset + length, from + length, targetOffset, rest'));
    case TargetCopy =>
      var offset := ReadNum(rest);
      if offset.Err? {
        assert Step(source, st) == Err(CopyOffsetTruncated);
        return Err(CopyOffsetTruncated);
      }
      var data := offset.value.0;
      var rest' := offset.value.1;
      assert Step(source, st) == TargetCopyStep(st, length, data, rest');
      var from := Displace(targetOffset, data);
      if from < 0 || outputOffset + length > target.Length || from + length > target.Length {
        return Err(CursorOutOfBounds);
      }
      var out, tgt := CopyWithin(target, outputOffset, from, length);
      return Ok((out, sourceOffset, tgt, rest'));
  }

  /** `PatchSourceFile` after the source file has been read into `source`, the
      buffer of `SourceSize` bytes it allocates. */
  method PatchSourceFile(patch: Patch, source: seq<byte>) returns (r: Outcome)
    requires |source| == patch.sourceSize
    ensures r == Apply(patch, source)
  {
    if Crc32.Checksum(source) != patch.sourceChecksum {
      return Failed(SourceChecksumMismatch);
    }
    var target := new byte[patch.targetSize](_ => 0);
    var remaining := patch.actions;
    var outputOffset: nat, sourceOffset: nat, targetOffset: nat := 0, 0, 0;
    assert target[..] == Init(patch).target;
    while |remaining| > 0
      invariant target.Length == patch.targetSize
      invariant Run(source, State(target[..], outputOffset, sourceOffset, targetOffset, remaining))
             == Run(source, Init(patch))
      decreases |remaining|
    {
      ghost var st := State(target[..], outputOffset, sourceOffset, targetOffset, remaining);
      var step := PerformAction(source, target, outputOffset, sourceOffset, targetOffset, remaining);
      if step.Err? {
        return Failed(step.error);
      }
      outputOffset, sourceOffset, targetOffset, remaining := step.value.0, step.value.1, step.value.2, step.value.3;
      RunNext(source, st, State(target[..], outputOffset, sourceOffset, targetOffset, remaining));
    }
    if Crc32.Checksum(target[..]) != patch.targetChecksum {
      return TargetMismatch(target[..]);
    }
    return Done(target[..]);
  }
}
