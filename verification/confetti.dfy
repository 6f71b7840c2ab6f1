/**
 * The confetti layer's buffer: every burst appends thirty new pieces and
 * keeps only the hundred most recent. A piece's position, rotation and size
 * are random floating-point display values and are not modelled; its id and
 * colour are.
 */
module Confetti {

  datatype Piece = Piece(id: int, color: string)

  const BurstSize: nat := 30
  const Capacity: nat := 100

  /** The seven colours a piece is drawn from. */
  const Palette: seq<string> := ["#1a1a1a", "#2a2a2a", "#3a3a3a", "#4a4a4a", "#5a5a5a", "#ffffff", "#f5f5f5"]

  /** Draws of `Math.random()`: each in [0, 1). */
  predicate ValidDraws(draws: seq<real>) {
    forall i :: 0 <= i < |draws| ==> 0.0 <= draws[i] < 1.0
  }

  /** Clock readings that never go backwards. */
  predicate NonDecreasing(clock: seq<int>) {
    forall i, j :: 0 <= i <= j < |clock| ==> clock[i] <= clock[j]
  }

  /** `Math.floor(draw * colors.length)`: always a palette index. */
  function ColorIndex(draw: real): (k: nat)
    requires 0.0 <= draw < 1.0
    ensures k < |Palette|
    ensures k as real <= draw * |Palette| as real < k as real + 1.0
  {
    (draw * |Palette| as real).Floor
  }

  /**
   * The thirty pieces of one burst. The clock is read once per piece:
   * piece `i` has id `clock[i] + i` and the colour chosen by the `i`-th draw.
   */
  function NewPieces(clock: seq<int>, draws: seq<real>): (r: seq<Piece>)
    requires |clock| == BurstSize
    requires |draws| == BurstSize && ValidDraws(draws)
    ensures |r| == BurstSize
    ensures forall i :: 0 <= i < |r| ==> r[i].id == clock[i] + i && r[i].color in Palette
    // readings that never go backwards give strictly increasing ids
    ensures NonDecreasing(clock) ==> forall i, j :: 0 <= i < j < |r| ==> r[i].id < r[j].id
  {
    seq(BurstSize, i requires 0 <= i < BurstSize => Piece(clock[i] + i, Palette[ColorIndex(draws[i])]))
  }

  /** `s.slice(-n)` for a positive `n`: the last `n` elements, or all of `s` when it is shorter. */
  function KeepLast<T>(s: seq<T>, n: nat): (r: seq<T>)
    requires n > 0
    ensures |r| == if |s| < n then |s| else n
    ensures r == s[|s| - |r|..]
  {
    if |s| <= n then s else s[|s| - n..]
  }

  /** `createConfettiBurst`: append a burst, keep the last hundred. */
  function Burst(buffer: seq<Piece>, clock: seq<int>, draws: seq<real>): (r: seq<Piece>)
    requires |clock| == BurstSize
    requires |draws| == BurstSize && ValidDraws(draws)
    ensures |r| == if |buffer| + BurstSize < Capacity then |buffer| + BurstSize else Capacity
    // the new pieces are the last thirty, in order
    ensures r[|r| - BurstSize..] == NewPieces(clock, draws)
    // what survives of the old buffer is its newest part
    ensures r[..|r| - BurstSize] == buffer[|buffer| - (|r| - BurstSize)..]
    // below capacity nothing is dropped
    ensures |buffer| + BurstSize <= Capacity ==> r == buffer + NewPieces(clock, draws)
  {
    var all := buffer + NewPieces(clock, draws);
    var r := KeepLast(all, Capacity);
    assert r[|r| - BurstSize..] == all[|all| - BurstSize..];
    assert all[|all| - BurstSize..] == NewPieces(clock, draws);
    assert r[..|r| - BurstSize] == all[|all| - |r|..|all| - BurstSize];
    r
  }

  /** Ids increase along the buffer, so the render keys are distinct. */
  predicate IdsIncreasing(s: seq<Piece>) {
    forall i, j :: 0 <= i < j < |s| ==> s[i].id < s[j].id
  }

  /**
   * A burst keeps ids increasing when the clock never goes backwards during
   * it and its first reading is past the newest id already shown.
   */
  lemma BurstKeepsIdsIncreasing(buffer: seq<Piece>, clock: seq<int>, draws: seq<real>)
    requires ValidReads(clock)
    requires |draws| == BurstSize && ValidDraws(draws)
    requires IdsIncreasing(buffer)
    requires |buffer| > 0 ==> buffer[|buffer| - 1].id < clock[0]
    ensures IdsIncreasing(Burst(buffer, clock, draws))
  {
    var added := NewPieces(clock, draws);
    JoinIncreasing(buffer, added);
    var all := buffer + added;
    var r := Burst(buffer, clock, draws);
    assert r == all[|all| - |r|..];
  }

  /** Two increasing runs, the second starting above the first's end, join into one. */
  lemma JoinIncreasing(a: seq<Piece>, b: seq<Piece>)
    requires IdsIncreasing(a) && IdsIncreasing(b)
    requires |a| > 0 && |b| > 0 ==> a[|a| - 1].id < b[0].id
    ensures IdsIncreasing(a + b)
  {
  }

  /** The readings a burst takes: one per piece, never going backwards. */
  predicate ValidReads(clock: seq<int>) {
    |clock| == BurstSize && NonDecreasing(clock)
  }

  /** The id a burst with these readings gives its last piece. */
  function LastId(clock: seq<int>): int
    requires ValidReads(clock)
  {
    clock[BurstSize - 1] + BurstSize - 1
  }

  /**
   * The component's interval: bursts with the per-piece clock readings
   * `clock[k]`, each with its own thirty draws.
   */
  function Bursts(buffer: seq<Piece>, clock: seq<seq<int>>, draws: seq<seq<real>>): seq<Piece>
    requires |draws| == |clock|
    requires forall k :: 0 <= k < |clock| ==> |clock[k]| == BurstSize
    requires ValidBurstDraws(draws)
    decreases |clock|
  {
    if |clock| == 0 then buffer
    else Bursts(Burst(buffer, clock[0], draws[0]), clock[1..], draws[1..])
  }

  /**
   * Every burst's readings are valid, and each burst's first reading is
   * past the id the previous burst gave its last piece.
   */
  predicate Spaced(clock: seq<seq<int>>) {
    && (forall k :: 0 <= k < |clock| ==> ValidReads(clock[k]))
    && (forall k :: 0 <= k < |clock| - 1 ==> LastId(clock[k]) < clock[k + 1][0])
  }

  /** Draws for a run of bursts: thirty valid draws per burst. */
  predicate ValidBurstDraws(draws: seq<seq<real>>) {
    forall k :: 0 <= k < |draws| ==> |draws[k]| == BurstSize && ValidDraws(draws[k])
  }

  /**
   * A buffer ready for the bursts still to come: ids increasing, and the
   * newest id below the next burst's first reading.
   */
  predicate Ready(buffer: seq<Piece>, clock: seq<seq<int>>)
    requires Spaced(clock)
  {
    && IdsIncreasing(buffer)
    && (|buffer| > 0 && |clock| > 0 ==> buffer[|buffer| - 1].id < clock[0][0])
  }

  /** The newest piece after a burst is its last new piece. */
  lemma BurstEndsAtLastId(buffer: seq<Piece>, clock: seq<int>, draws: seq<real>)
    requires ValidReads(clock)
    requires |draws| == BurstSize && ValidDraws(draws)
    ensures var r := Burst(buffer, clock, draws); r[|r| - 1].id == LastId(clock)
  {
    var r := Burst(buffer, clock, draws);
    assert r[|r| - 1] == NewPieces(clock, draws)[BurstSize - 1];
  }

  /** Dropping the first burst keeps the rest spaced. */
  lemma SpacedTail(clock: seq<seq<int>>)
    requires Spaced(clock) && |clock| > 0
    ensures Spaced(clock[1..])
    ensures |clock| > 1 ==> LastId(clock[0]) < clock[1..][0][0]
  {
    assert forall k :: 0 <= k < |clock[1..]| ==> clock[1..][k] == clock[k + 1];
  }

  /** Dropping the first burst's draws keeps the rest valid. */
  lemma DrawsTail(draws: seq<seq<real>>)
    requires |draws| > 0 && ValidBurstDraws(draws)
    ensures ValidBurstDraws(draws[1..])
  {
    assert forall k :: 0 <= k < |draws[1..]| ==> draws[1..][k] == draws[k + 1];
  }

  /** One burst takes a ready buffer to one ready for the remaining bursts. */
  lemma BurstStep(buffer: seq<Piece>, clock: seq<seq<int>>, draws: seq<real>)
    requires |clock| > 0 && Spaced(clock) && Ready(buffer, clock)
    requires |draws| == BurstSize && ValidDraws(draws)
    ensures Spaced(clock[1..])
    ensures Ready(Burst(buffer, clock[0], draws), clock[1..])
  {
    BurstKeepsIdsIncreasing(buffer, clock[0], draws);
    BurstEndsAtLastId(buffer, clock[0], draws);
    SpacedTail(clock);
  }

  /** However many bursts run, the buffer holds at most a hundred pieces, and at least one burst's worth once one has run. */
  lemma {:induction false} BurstsBounded(buffer: seq<Piece>, clock: seq<seq<int>>, draws: seq<seq<real>>)
    requires |draws| == |clock| && ValidBurstDraws(draws)
    requires forall k :: 0 <= k < |clock| ==> |clock[k]| == BurstSize
    requires |buffer| <= Capacity
    ensures |Bursts(buffer, clock, draws)| <= Capacity
    ensures |clock| > 0 ==> |Bursts(buffer, clock, draws)| >= BurstSize
    decreases |clock|
  {
    if |clock| > 0 {
      var next := Burst(buffer, clock[0], draws[0]);
      DrawsTail(draws);
      assert forall k :: 0 <= k < |clock[1..]| ==> clock[1..][k] == clock[k + 1];
      BurstsBounded(next, clock[1..], draws[1..]);
      if |clock| == 1 {
        assert Bursts(next, clock[1..], draws[1..]) == next;
      }
    }
  }

  /** Bursts that each start past the previous burst's last id keep the ids increasing. */
  lemma {:induction false} BurstsDistinct(buffer: seq<Piece>, clock: seq<seq<int>>, draws: seq<seq<real>>)
    requires |draws| == |clock| && ValidBurstDraws(draws)
    requires Spaced(clock) && Ready(buffer, clock)
    ensures IdsIncreasing(Bursts(buffer, clock, draws))
    decreases |clock|
  {
    if |clock| > 0 {
      BurstStep(buffer, clock, draws[0]);
      DrawsTail(draws);
      BurstsDistinct(Burst(buffer, clock[0], draws[0]), clock[1..], draws[1..]);
    }
  }
}
