/** The chunked copy of usbdevice.cpp for devices mounted as a drive, with abort and progress reports. */
module MscCopy {
  import opened Wrappers

  type Byte = b: int | 0 <= b < 256

  const MAX_BUF: nat := 1024

  /**
   What a copy meets: the bytes of the source, the position from which it cannot be read if there is one,
   whether the caller passes a notifier, its answer to the n-th abort question, and how many bytes of the
   n-th chunk the target takes.
   */
  datatype Env = Env(source: seq<Byte>, readError: Option<nat>, notifier: bool, abort: nat -> bool, accepts: nat -> nat)

  predicate Unreadable(env: Env) {
    env.readError.Some? && env.readError.value <= |env.source|
  }

  function ReadEnd(env: Env): (end: nat)
    ensures end <= |env.source|
  {
    if Unreadable(env) then env.readError.value else |env.source|
  }

  /** How many bytes `fread` gives at a position, and whether it meets the end of the file. */
  function ChunkSize(env: Env, pos: nat): nat
    requires pos <= ReadEnd(env)
  {
    if ReadEnd(env) - pos < MAX_BUF then ReadEnd(env) - pos else MAX_BUF
  }

  predicate MeetsEof(env: Env, pos: nat)
    requires pos <= ReadEnd(env)
  {
    !Unreadable(env) && ChunkSize(env, pos) < MAX_BUF
  }

  const LONG_LIMIT: int := 0x8000_0000

  /** What a byte count becomes when it is reported as a 32-bit `long`. */
  function AsLong(n: nat): int {
    (n + LONG_LIMIT) % (2 * LONG_LIMIT) - LONG_LIMIT
  }

  /** `ftell` at the end of the source; it fails when the size does not fit. */
  function FileSize(env: Env): int {
    if |env.source| < LONG_LIMIT then |env.source| else -1
  }

  /** The copy between two turns of its loop. */
  datatype State = State(copied: nat, target: seq<Byte>, positions: seq<int>, turn: nat, eof: bool, shortWrite: bool)

  function Start(): State {
    State(0, [], [], 0, false, false)
  }

  predicate Aborted(env: Env, s: State) {
    env.notifier && env.abort(s.turn)
  }

  function Min(a: nat, b: nat): nat {
    if a < b then a else b
  }

  /** A turn that writes all it has read. */
  function Turned(env: Env, s: State): State
    requires s.copied <= ReadEnd(env)
  {
    var n := ChunkSize(env, s.copied);
    State(s.copied + n, s.target + env.source[s.copied..s.copied + n],
          s.positions + (if env.notifier then [AsLong(s.copied + n)] else []),
          s.turn + 1, s.eof || MeetsEof(env, s.copied), s.shortWrite)
  }

  /** A turn whose write is cut short. */
  function CutShort(env: Env, s: State): State
    requires s.copied <= ReadEnd(env)
  {
    var n := ChunkSize(env, s.copied);
    State(s.copied + n, s.target + env.source[s.copied..s.copied + Min(env.accepts(s.turn), n)],
          s.positions, s.turn, s.eof || MeetsEof(env, s.copied), true)
  }

  /** The end of the loop from a given state. */
  function Loop(env: Env, s: State): State
    requires s.copied <= ReadEnd(env)
    decreases ReadEnd(env) - s.copied
  {
    if Aborted(env, s) then s
    else if ChunkSize(env, s.copied) == 0 then s.(eof := s.eof || MeetsEof(env, s.copied))
    else if env.accepts(s.turn) < ChunkSize(env, s.copied) then CutShort(env, s)
    else Loop(env, Turned(env, s))
  }

  /** The code returned: a short write is noticed, but its own code 3 is not returned. */
  function ReturnCode(s: State): int {
    if s.eof then 0 else 4
  }

  /** The calls of the caller's notifier. */
  datatype Report = Begin(size: int) | At(position: int) | End

  function Ats(positions: seq<int>): seq<Report> {
    seq(|positions|, i requires 0 <= i < |positions| => At(positions[i]))
  }

  /** `msc_copy`, for a target that can be opened.  `source` is null if the source cannot be. */
  method Copy(source: Option<Env>) returns (ret: int, target: seq<Byte>, reports: seq<Report>)
    ensures source.None? ==> ret == 1 && target == [] && reports == []
    ensures source.Some? ==>
              var s := Loop(source.value, Start());
              && ret == ReturnCode(s) && target == s.target
              && reports == if source.value.notifier then [Begin(FileSize(source.value))] + Ats(s.positions) + [End]
                            else []
  {
    hide Loop;
    target, reports := [], [];
    if source.None? {
      ret := 1;
      return;
    }
    var env := source.value;
    var retcode, crtCopied, turn, eof := 0, 0, 0, false;
    if env.notifier {
      reports := [Begin(FileSize(env))];
    }
    ghost var positions, shortWrite := [], false;
    while true
      invariant crtCopied <= ReadEnd(env) && !shortWrite
      invariant Loop(env, State(crtCopied, target, positions, turn, eof, shortWrite)) == Loop(env, Start())
      invariant reports == if env.notifier then [Begin(FileSize(env))] + Ats(positions) else []
      decreases ReadEnd(env) - crtCopied
    {
      LoopTurn(env, State(crtCopied, target, positions, turn, eof, shortWrite));
      if env.notifier && env.abort(turn) {
        break;
      }
      var bytesRead := ChunkSize(env, crtCopied);
      eof := eof || MeetsEof(env, crtCopied);
      if bytesRead == 0 {
        break;
      }
      var bytesWritten := Min(env.accepts(turn), bytesRead);
      target := target + env.source[crtCopied..crtCopied + bytesWritten];
      crtCopied := crtCopied + bytesRead;
      if bytesWritten != bytesRead {
        retcode := 3;
        shortWrite := true;
        break;
      }
      if env.notifier {
        reports := reports + [At(AsLong(crtCopied))];
        positions := positions + [AsLong(crtCopied)];
      } else {
        assert positions + [] == positions;
      }
      turn := turn + 1;
    }
    if env.notifier {
      reports := reports + [End];
    }
    ret := if !eof then 4 else 0;
  }

  lemma LoopTurn(env: Env, s: State)
    requires s.copied <= ReadEnd(env)
    ensures Aborted(env, s) ==> Loop(env, s) == s
    ensures !Aborted(env, s) && ChunkSize(env, s.copied) == 0 ==>
              Loop(env, s) == s.(eof := s.eof || MeetsEof(env, s.copied))
    ensures !Aborted(env, s) && env.accepts(s.turn) < ChunkSize(env, s.copied) ==> Loop(env, s) == CutShort(env, s)
    ensures !Aborted(env, s) && 0 < ChunkSize(env, s.copied) <= env.accepts(s.turn) ==>
              Loop(env, s) == Loop(env, Turned(env, s))
  {
  }

  // ----- what the loop keeps -----

  /** One report per chunk: the multiples of the buffer size, and last the position where reading ended. */
  predicate Reported(env: Env, s: State) {
    && |s.positions| == (if env.notifier then s.turn else 0)
    && (s.turn > 0 ==> MAX_BUF * (s.turn - 1) < ReadEnd(env))
    && (forall i :: 0 <= i < |s.positions| ==> s.positions[i] == AsLong(Position(env, i)))
  }

  function Position(env: Env, i: nat): nat {
    if MAX_BUF * (i + 1) < ReadEnd(env) then MAX_BUF * (i + 1) else ReadEnd(env)
  }

  /** Everything read so far has been written, in whole chunks up to the last. */
  predicate Inv(env: Env, s: State) {
    && s.copied <= ReadEnd(env) && s.target == env.source[..s.copied] && !s.shortWrite
    && (if s.copied < ReadEnd(env) then s.copied == MAX_BUF * s.turn else s.copied <= MAX_BUF * s.turn)
    && (s.eof ==> !Unreadable(env) && s.copied == |env.source|)
    && (!s.eof && !Unreadable(env) ==> s.copied == MAX_BUF * s.turn)
    && Reported(env, s)
  }

  /** How the loop can end. */
  predicate Ending(env: Env, s: State) {
    && s.target <= env.source
    && (s.eof ==> !Unreadable(env))
    && (s.shortWrite ==> |s.target| < s.copied <= ReadEnd(env) && MAX_BUF * s.turn < ReadEnd(env)
                         && env.accepts(s.turn) < MAX_BUF)
    && (s.shortWrite && s.eof ==> |s.target| < |env.source| && env.accepts(s.turn) < MAX_BUF - 1)
    && (s.shortWrite && !Unreadable(env) ==> s.eof || s.copied % MAX_BUF == 0)
    && (!s.shortWrite && s.eof ==> s.target == env.source && |env.source| <= MAX_BUF * s.turn)
    && (!s.shortWrite && !s.eof && !Unreadable(env) ==> |s.target| % MAX_BUF == 0)
    && (!s.shortWrite && !s.eof ==> Unreadable(env) || Aborted(env, s))
    && AllWhole(env, s.turn)
    && Reported(env, s)
  }

  /** The chunk of turn `k` was taken whole. */
  predicate WrittenWhole(env: Env, k: nat) {
    MAX_BUF * k <= ReadEnd(env) && env.accepts(k) >= ChunkSize(env, MAX_BUF * k)
  }

  /** Every chunk of the turns made was taken whole. */
  predicate AllWhole(env: Env, turns: nat) {
    forall k :: 0 <= k < turns ==> WrittenWhole(env, k)
  }

  lemma TurnKeepsInv(env: Env, s: State)
    requires Inv(env, s) && ChunkSize(env, s.copied) > 0
    ensures s.copied == MAX_BUF * s.turn && s.copied < Turned(env, s).copied && Inv(env, Turned(env, s))
  {
    var n := ChunkSize(env, s.copied);
    assert env.source[..s.copied] + env.source[s.copied..s.copied + n] == env.source[..s.copied + n];
  }

  lemma AbortEnds(env: Env, s: State)
    requires Inv(env, s) && AllWhole(env, s.turn) && Aborted(env, s)
    ensures Ending(env, s)
  {
  }

  lemma NoMoreEnds(env: Env, s: State)
    requires Inv(env, s) && AllWhole(env, s.turn) && ChunkSize(env, s.copied) == 0
    ensures Ending(env, s.(eof := s.eof || MeetsEof(env, s.copied)))
  {
    assert env.source[..|env.source|] == env.source;
  }

  lemma CutShortEnds(env: Env, s: State)
    requires Inv(env, s) && AllWhole(env, s.turn)
    requires env.accepts(s.turn) < ChunkSize(env, s.copied)
    ensures Ending(env, CutShort(env, s))
  {
    var w := env.accepts(s.turn);
    assert env.source[..s.copied] + env.source[s.copied..s.copied + w] == env.source[..s.copied + w];
  }

  lemma {:induction false} LoopEnds(env: Env, s: State)
    requires Inv(env, s) && AllWhole(env, s.turn)
    ensures s.copied <= ReadEnd(env) && Ending(env, Loop(env, s))
    decreases ReadEnd(env) - s.copied
  {
    InvBound(env, s);
    hide Inv, Ending;
    if Aborted(env, s) {
      AbortEnds(env, s);
    } else if ChunkSize(env, s.copied) == 0 {
      NoMoreEnds(env, s);
    } else if env.accepts(s.turn) < ChunkSize(env, s.copied) {
      CutShortEnds(env, s);
    } else {
      TurnKeepsInv(env, s);
      LoopEnds(env, Turned(env, s));
    }
  }

  lemma InvBound(env: Env, s: State)
    requires Inv(env, s)
    ensures s.copied <= ReadEnd(env)
  {
  }

  lemma Ends(env: Env)
    ensures Ending(env, Loop(env, Start()))
  {
    assert env.source[..0] == [];
    LoopEnds(env, Start());
  }

  predicate Increasing(positions: seq<int>) {
    forall i, j :: 0 <= i < j < |positions| ==> positions[i] < positions[j]
  }

  /**
   For every source, abort schedule and target: what has been written is a prefix of the source; result 0
   means that the whole source was read, and that it was copied unless the last write was cut short; any
   other result 4 is due to an abort on a multiple of the buffer size, a read error or a short write.
   */
  lemma CopyOutcome(env: Env)
    ensures var s := Loop(env, Start());
            && s.target <= env.source && (ReturnCode(s) == 0 || ReturnCode(s) == 4)
            && (ReturnCode(s) == 0 ==> (s.target == env.source <==> !s.shortWrite))
            && (ReturnCode(s) == 4 && !Unreadable(env) && !s.shortWrite ==>
                  Aborted(env, s) && |s.target| % 1024 == 0)
  {
    Ends(env);
  }

  /**
   The positions reported for a file below two gigabytes strictly increase, whatever happens; those of a
   complete copy with a notifier do exactly if the file is that small.
   */
  lemma PositionsIncreaseExactlyWhen(env: Env)
    ensures var s := Loop(env, Start());
            && (|env.source| < 0x8000_0000 ==> Increasing(s.positions))
            && (env.notifier && s.eof && !s.shortWrite ==>
                  (Increasing(s.positions) <==> |env.source| < 0x8000_0000))
  {
    Ends(env);
    var s := Loop(env, Start());
    if |env.source| < LONG_LIMIT {
      forall i, j | 0 <= i < j < |s.positions|
        ensures s.positions[i] < s.positions[j]
      {
        PositionsGrow(env, i, j, s.turn);
      }
    } else if env.notifier && s.eof && !s.shortWrite {
      var k := LONG_LIMIT / MAX_BUF;
      assert k <= |s.positions| && MAX_BUF * k == LONG_LIMIT;
      assert s.positions[k - 2] == AsLong(Position(env, k - 2)) == LONG_LIMIT - MAX_BUF;
      assert s.positions[k - 1] == AsLong(Position(env, k - 1)) == -LONG_LIMIT;
    }
  }

  /**
   The size announced is the number of bytes exactly if the file is below two gigabytes, and is then the last
   position reported by a complete copy.
   */
  lemma LastPositionIsAnnouncedSize(env: Env)
    requires env.notifier && env.source != []
    ensures var s := Loop(env, Start());
            && (FileSize(env) == |env.source| <==> |env.source| < 0x8000_0000)
            && (s.eof && !s.shortWrite ==>
                  && s.positions != []
                  && (|env.source| < 0x8000_0000 ==> s.positions[|s.positions| - 1] == FileSize(env)))
  {
    Ends(env);
    var s := Loop(env, Start());
    if s.eof && !s.shortWrite {
      assert s.positions[|s.positions| - 1] == AsLong(Position(env, s.turn - 1));
    }
  }

  lemma PositionsGrow(env: Env, i: nat, j: nat, turn: nat)
    requires i < j < turn && MAX_BUF * (turn - 1) < ReadEnd(env) && |env.source| < LONG_LIMIT
    ensures AsLong(Position(env, i)) < AsLong(Position(env, j))
  {
    assert MAX_BUF * (i + 1) <= MAX_BUF * (turn - 1);
    assert MAX_BUF * (i + 1) < MAX_BUF * (j + 1);
  }

  // ----- when is the copy complete? -----

  /** Nothing is in the way of a chunk: the caller does not abort before it, and the target takes it whole. */
  predicate Clear(env: Env, k: nat) {
    !(env.notifier && env.abort(k)) && (MAX_BUF * k <= ReadEnd(env) ==> env.accepts(k) >= ChunkSize(env, MAX_BUF * k))
  }

  /** The last chunk, partial and perhaps empty. */
  function LastChunk(env: Env): nat {
    |env.source| / MAX_BUF
  }

  predicate Completed(s: State) {
    s.eof && !s.shortWrite
  }

  lemma {:induction false} ClearRunsToEnd(env: Env, s: State)
    requires Inv(env, s) && !Unreadable(env) && forall k :: s.turn <= k <= LastChunk(env) ==> Clear(env, k)
    ensures s.copied <= ReadEnd(env) && Completed(Loop(env, s))
    decreases ReadEnd(env) - s.copied
  {
    assert !s.eof ==> s.turn <= LastChunk(env) && Clear(env, s.turn);
    if !Aborted(env, s) && ChunkSize(env, s.copied) > 0 {
      TurnKeepsInv(env, s);
      ClearRunsToEnd(env, Turned(env, s));
    }
  }

  lemma {:induction false} BlockedDoesNot(env: Env, s: State, k: nat)
    requires Inv(env, s) && !s.eof && !Unreadable(env) && s.turn <= k <= LastChunk(env) && !Clear(env, k)
    ensures s.copied <= ReadEnd(env) && !Completed(Loop(env, s))
    decreases ReadEnd(env) - s.copied
  {
    if !Aborted(env, s) && 0 < ChunkSize(env, s.copied) <= env.accepts(s.turn) {
      TurnKeepsInv(env, s);
      assert k != s.turn;
      BlockedDoesNot(env, Turned(env, s), k);
    }
  }

  /** The copy succeeds and is complete exactly if the source can be read and no chunk is refused or aborted. */
  lemma CopyCompletes(env: Env)
    ensures var s := Loop(env, Start());
            ReturnCode(s) == 0 && s.target == env.source
            <==> !Unreadable(env) && forall k :: 0 <= k <= LastChunk(env) ==> Clear(env, k)
  {
    Ends(env);
    assert env.source[..0] == [];
    if !Unreadable(env) {
      if k: nat :| k <= LastChunk(env) && !Clear(env, k) {
        BlockedDoesNot(env, Start(), k);
      } else {
        ClearRunsToEnd(env, Start());
      }
    }
  }

  // ----- when does result 0 mean that the target is the source? -----

  /** Result 0 is honest for a target that takes chunks like this, whatever the source and the caller do. */
  ghost predicate ZeroMeansCopied(accepts: nat -> nat) {
    forall env: Env :: env.accepts == accepts && ReturnCode(Loop(env, Start())) == 0 ==>
      Loop(env, Start()).target == env.source
  }

  /** Chunk `n` is lost without notice if the earlier ones fit and it does not, being a last, partial one. */
  predicate LosesLast(accepts: nat -> nat, n: nat) {
    accepts(n) < MAX_BUF - 1 && forall k :: 0 <= k < n ==> accepts(k) >= MAX_BUF
  }

  function Zeros(n: nat): seq<Byte> {
    seq(n, _ => 0)
  }

  /** A source whose last, partial chunk is the one of turn `n`. */
  function LosingEnv(accepts: nat -> nat, n: nat): Env {
    Env(Zeros(MAX_BUF * n + MAX_BUF - 1), None, false, (_: nat) => false, accepts)
  }

  lemma {:induction false} LosesLastChunk(accepts: nat -> nat, n: nat, s: State)
    requires LosesLast(accepts, n) && s.turn <= n && s.copied == MAX_BUF * s.turn
    ensures var end := Loop(LosingEnv(accepts, n), s); end.eof && end.shortWrite
    decreases n - s.turn
  {
    var env := LosingEnv(accepts, n);
    assert |env.source| == MAX_BUF * n + MAX_BUF - 1;
    if s.turn < n {
      assert MAX_BUF * s.turn + MAX_BUF <= MAX_BUF * n;
      LosesLastChunk(accepts, n, Turned(env, s));
    }
  }

  /**
   A short write of the last chunk is not reported: the end of the file has been met, and the code of the
   write error is dropped.  So result 0 can be trusted exactly if no such chunk can be cut short.
   */
  lemma ZeroMeansCopiedExactlyWhen(accepts: nat -> nat)
    ensures ZeroMeansCopied(accepts) <==> forall n :: !LosesLast(accepts, n)
  {
    if exists n :: LosesLast(accepts, n) {
      var n :| LosesLast(accepts, n);
      var env := LosingEnv(accepts, n);
      LosesLastChunk(accepts, n, Start());
      CopyOutcome(env);
      assert ReturnCode(Loop(env, Start())) == 0;
    } else {
      forall env: Env | env.accepts == accepts && ReturnCode(Loop(env, Start())) == 0
        ensures Loop(env, Start()).target == env.source
      {
        Ends(env);
        var s := Loop(env, Start());
        if s.shortWrite {
          EarlierChunksWhole(env, s);
          assert LosesLast(accepts, s.turn);
        }
      }
    }
  }

  lemma EarlierChunksWhole(env: Env, s: State)
    requires Ending(env, s)
    requires s.shortWrite
    ensures forall k :: 0 <= k < s.turn ==> env.accepts(k) >= MAX_BUF
  {
    forall k | 0 <= k < s.turn
      ensures env.accepts(k) >= MAX_BUF
    {
      assert WrittenWhole(env, k);
    }
  }
}
