/** The software-rendered pixel field of `flib`: a 100 x 100 grid of RGBA cells
    that, once per frame, gets a marching trail of red cells, fades by one step
    in every colour channel, and is stamped green under the mouse pointer. */
module Flib {
  import Counter

  /** An 8-bit unsigned channel value. */
  newtype U8 = x: int | 0 <= x < 256

  /** One cell of the grid, four 8-bit channels. */
  datatype Pix = Pix(r: U8, g: U8, b: U8, a: U8)

  const GW: nat := 100
  const GH: nat := 100
  /** Number of cells in the grid. */
  const GM: nat := GW * GH
  /** Emitter writes per frame. */
  const REP: nat := 10
  /** Stride between the cells the emitter visits. */
  const SPREAD: nat := 2
  /** Number of distinct cursor values the emitter is meant to take. */
  const SLOTS: nat := GM / SPREAD
  /** Largest cursor value whose write index `pos * SPREAD` lies inside the grid. */
  const LAST: nat := SLOTS - 1

  const RED: Pix := Pix(255, 0, 0, 0)
  /** The pointer colour: the aggregate `{0, 255, 0}` leaves alpha at 0. */
  const GREEN: Pix := Pix(0, 255, 0, 0)
  /** What an emitted cell looks like once the same frame's decay pass has run. */
  const FADED_RED: Pix := Pix(254, 0, 0, 0)

  // ---------------------------------------------------------------------------
  // clamp

  function Dist(x: int, y: int): nat {
    if x < y then y - x else x - y
  }

  /** `clamp(val, min, max)`: the value of [min, max] nearest to `val`. */
  function Clamp(val: int, min: int, max: int): (r: int)
    ensures min <= max ==> min <= r <= max
    ensures min <= val <= max ==> r == val
    ensures min <= max ==> forall x :: min <= x <= max ==> Dist(r, val) <= Dist(x, val)
  {
    if val < min then min else if val > max then max else val
  }

  /** Clamping an already clamped value changes nothing. */
  lemma ClampIdempotent(val: int, min: int, max: int)
    requires min <= max
    ensures Clamp(Clamp(val, min, max), min, max) == Clamp(val, min, max)
  {
  }

  // ---------------------------------------------------------------------------
  // Decay of one cell

  /** One decay step: r, g and b each drop by one unless already 0; alpha stays. */
  function DecayPix(p: Pix): (q: Pix)
    ensures q.a == p.a
    ensures q.r <= p.r && p.r - q.r <= 1 && (q.r == p.r <==> p.r == 0)
    ensures q.g <= p.g && p.g - q.g <= 1 && (q.g == p.g <==> p.g == 0)
    ensures q.b <= p.b && p.b - q.b <= 1 && (q.b == p.b <==> p.b == 0)
  {
    Pix(if p.r > 0 then p.r - 1 else 0,
        if p.g > 0 then p.g - 1 else 0,
        if p.b > 0 then p.b - 1 else 0,
        p.a)
  }

  /** A channel value lowered by `k`, stopping at 0. */
  function SatSub(c: U8, k: nat): U8 {
    if c as int <= k then 0 else (c as int - k) as U8
  }

  /** A cell after `k` decay steps. */
  function DecayTimes(p: Pix, k: nat): (q: Pix)
    ensures q.a == p.a && q.r <= p.r && q.g <= p.g && q.b <= p.b
  {
    if k == 0 then p else DecayPix(DecayTimes(p, k - 1))
  }

  /** `k` decay steps lower each colour channel by `k`, never below 0, and
      leave alpha alone. */
  lemma {:induction false} DecayTimesSaturates(p: Pix, k: nat)
    ensures DecayTimes(p, k) == Pix(SatSub(p.r, k), SatSub(p.g, k), SatSub(p.b, k), p.a)
  {
    if k > 0 {
      DecayTimesSaturates(p, k - 1);
    }
  }

  /** After 255 decay steps any cell is black, alpha intact. */
  lemma FadesToBlack(p: Pix)
    ensures DecayTimes(p, 255) == Pix(0, 0, 0, p.a)
  {
    DecayTimesSaturates(p, 255);
  }

  // ---------------------------------------------------------------------------
  // The emitter cursor

  /** The cursor step with the bound `pos <= LAST`, under which every write
      `pos * SPREAD` is a grid cell: the corrected half of the finding about
      the reset guard of the emitter. */
  function Advance(pos: nat): (r: nat)
    ensures pos <= LAST ==> r <= LAST && r * SPREAD < GM
  {
    Counter.Bump(pos, LAST)
  }

  /** The cursor step as written: `if (++pos > gm / spread) pos = 0;`. */
  function AdvanceAsWritten(pos: nat): (r: nat)
    ensures pos <= SLOTS ==> r <= SLOTS && r * SPREAD <= GM
  {
    Counter.Bump(pos, SLOTS)
  }

  /** The cursor value before the `j`-th write of a frame that starts at `p`. */
  function CursorAt(p: nat, j: nat): (c: nat)
    ensures p <= LAST ==> c <= LAST
  {
    Counter.Iterate(j, p, LAST)
  }

  /** The cell the `j`-th write of a frame that starts at cursor `p` lands on. */
  function WriteIndex(p: nat, j: nat): (w: nat)
    ensures p <= LAST ==> w < GM
  {
    CursorAt(p, j) * SPREAD
  }

  /** The emitter's cells, closed form: the `j`-th write of a frame lands on
      slot (p + j) mod SLOTS, and the cursor after a frame is (p + REP) mod SLOTS. */
  lemma WriteIndexClosedForm(p: nat, j: nat)
    requires p <= LAST
    ensures WriteIndex(p, j) == ((p + j) % SLOTS) * SPREAD
    ensures CursorAt(p, REP) == (p + REP) % SLOTS
  {
    Counter.IterateClosedForm(j, p, LAST);
    Counter.IterateClosedForm(REP, p, LAST);
  }

  /** The REP writes of one frame land on REP different cells. */
  lemma WritesDistinct(p: nat, j1: nat, j2: nat)
    requires p <= LAST && j1 < j2 < REP
    ensures WriteIndex(p, j1) != WriteIndex(p, j2)
  {
    Counter.IterateClosedForm(j1, p, LAST);
    Counter.IterateClosedForm(j2, p, LAST);
    var a, b := p + j1, p + j2;
    if b < SLOTS {
      Counter.DivModUnique(a, SLOTS, 0, a);
      Counter.DivModUnique(b, SLOTS, 0, b);
    } else if a < SLOTS {
      Counter.DivModUnique(a, SLOTS, 0, a);
      Counter.DivModUnique(b, SLOTS, 1, b - SLOTS);
    } else {
      Counter.DivModUnique(a, SLOTS, 1, a - SLOTS);
      Counter.DivModUnique(b, SLOTS, 1, b - SLOTS);
    }
  }

  // ---------------------------------------------------------------------------
  // One frame on the grid's contents

  /** True if the emitter writes cell `i` in a frame that starts at cursor `p`
      and makes `k` writes. */
  predicate Emitted(p: nat, k: nat, i: int) {
    exists j :: 0 <= j < k && WriteIndex(p, j) == i
  }

  /** The grid after the first `k` writes of the emit pass. */
  function Emit(s: seq<Pix>, p: nat, k: nat): (t: seq<Pix>)
    requires |s| == GM && p <= LAST
    ensures |t| == GM
  {
    if k == 0 then s else Emit(s, p, k - 1)[WriteIndex(p, k - 1) := RED]
  }

  /** The emit pass paints exactly the emitted cells red and keeps the rest. */
  lemma {:induction false} EmitAt(s: seq<Pix>, p: nat, k: nat, i: int)
    requires |s| == GM && p <= LAST && 0 <= i < GM
    ensures Emit(s, p, k)[i] == if Emitted(p, k, i) then RED else s[i]
  {
    if k > 0 {
      EmitAt(s, p, k - 1, i);
      if WriteIndex(p, k - 1) == i {
        assert Emitted(p, k, i);
      } else if Emitted(p, k, i) {
        var j :| 0 <= j < k && WriteIndex(p, j) == i;
        assert Emitted(p, k - 1, i);
      }
    }
  }

  /** The decay pass on every cell. */
  function DecayAll(s: seq<Pix>): (t: seq<Pix>)
    ensures |t| == |s|
  {
    seq(|s|, i requires 0 <= i < |s| => DecayPix(s[i]))
  }

  /** True if the pointer lies inside the grid. */
  predicate InGrid(mx: int, my: int)
    ensures InGrid(mx, my) ==> 0 <= mx + my * GW < GM
  {
    0 <= mx < GW && 0 <= my < GH
  }

  /** The cell under an in-grid pointer, in row-major order. */
  function PointerCell(mx: int, my: int): (i: int)
    requires InGrid(mx, my)
    ensures 0 <= i < GM
    ensures i % GW == mx && i / GW == my
  {
    Counter.DivModUnique(mx + my * GW, GW, my, mx);
    mx + my * GW
  }

  /** True if the pointer pass of this frame writes cell `i`. */
  predicate PointedAt(mx: int, my: int, i: int) {
    InGrid(mx, my) && PointerCell(mx, my) == i
  }

  /** The pointer pass: green under an in-grid pointer, no write otherwise. */
  function Stamp(s: seq<Pix>, mx: int, my: int): (t: seq<Pix>)
    requires |s| == GM
    ensures |t| == GM
  {
    if InGrid(mx, my) then s[PointerCell(mx, my) := GREEN] else s
  }

  /** One whole frame, in the source's order: emit, then decay, then pointer. */
  function Frame(s: seq<Pix>, p: nat, mx: int, my: int): (t: seq<Pix>)
    requires |s| == GM && p <= LAST
    ensures |t| == GM
  {
    Stamp(DecayAll(Emit(s, p, REP)), mx, my)
  }

  /** Each cell after a frame: green under the pointer, otherwise 254-red if
      emitted (emit runs before decay), otherwise its old value decayed once. */
  lemma FrameAt(s: seq<Pix>, p: nat, mx: int, my: int, i: int)
    requires |s| == GM && p <= LAST && 0 <= i < GM
    ensures Frame(s, p, mx, my)[i] ==
      if PointedAt(mx, my, i) then GREEN
      else if Emitted(p, REP, i) then FADED_RED
      else DecayPix(s[i])
  {
    EmitAt(s, p, REP, i);
  }

  /** The sentinel pointer (-1, -1), like every off-grid pointer, writes nothing. */
  lemma SentinelWritesNothing(s: seq<Pix>, p: nat)
    requires |s| == GM && p <= LAST
    ensures Frame(s, p, -1, -1) == DecayAll(Emit(s, p, REP))
    ensures forall i :: 0 <= i < GM && !Emitted(p, REP, i) ==> Frame(s, p, -1, -1)[i] == DecayPix(s[i])
  {
    forall i | 0 <= i < GM && !Emitted(p, REP, i)
      ensures Frame(s, p, -1, -1)[i] == DecayPix(s[i])
    {
      FrameAt(s, p, -1, -1, i);
    }
  }

  /** The grid after one frame per pointer position in `ptrs`, starting from
      contents `s` and cursor `p`; each frame advances the cursor REP times. */
  function Frames(s: seq<Pix>, p: nat, ptrs: seq<(int, int)>): (t: seq<Pix>)
    requires |s| == GM && p <= LAST
    ensures |t| == GM
    decreases |ptrs|
  {
    if ptrs == [] then s
    else
      var n := |ptrs| - 1;
      Frame(Frames(s, p, ptrs[..n]), Counter.Iterate(n * REP, p, LAST), ptrs[n].0, ptrs[n].1)
  }

  /** True if no frame of the run emits to or points at cell `i`. */
  predicate Untouched(p: nat, ptrs: seq<(int, int)>, i: int) {
    forall f :: 0 <= f < |ptrs| ==>
      !Emitted(Counter.Iterate(f * REP, p, LAST), REP, i) && !PointedAt(ptrs[f].0, ptrs[f].1, i)
  }

  /** A cell that no frame of a run emits to or points at has only decayed,
      once per frame. */
  lemma {:induction false} UntouchedCellOnlyDecays(s: seq<Pix>, p: nat, ptrs: seq<(int, int)>, i: int)
    requires |s| == GM && p <= LAST && 0 <= i < GM
    requires Untouched(p, ptrs, i)
    ensures Frames(s, p, ptrs)[i] == DecayTimes(s[i], |ptrs|)
  {
    if ptrs != [] {
      var n := |ptrs| - 1;
      assert Untouched(p, ptrs[..n], i) by {
        forall f | 0 <= f < n
          ensures ptrs[..n][f] == ptrs[f]
        {
        }
      }
      UntouchedCellOnlyDecays(s, p, ptrs[..n], i);
      assert !Emitted(Counter.Iterate(n * REP, p, LAST), REP, i) && !PointedAt(ptrs[n].0, ptrs[n].1, i);
      FrameAt(Frames(s, p, ptrs[..n]), Counter.Iterate(n * REP, p, LAST), ptrs[n].0, ptrs[n].1, i);
    }
  }

  // ---------------------------------------------------------------------------
  // The cursor bound as written

  datatype Option<T> = None | Some(value: T)

  /** The emit pass as written: None stands for a write past the end of the
      buffer, which is undefined behaviour in the source. */
  function EmitAsWritten(s: seq<Pix>, p: nat, k: nat): (t: Option<seq<Pix>>)
    ensures t.Some? ==> |t.value| == |s|
  {
    if k == 0 then Some(s)
    else
      match EmitAsWritten(s, p, k - 1)
      case None => None
      case Some(u) =>
        var w := Counter.Iterate(k - 1, p, SLOTS) * SPREAD;
        if w < |u| then Some(u[w := RED]) else None
  }

  /** Once a write has gone out of bounds, the rest of the pass is undefined too. */
  lemma {:induction false} AsWrittenStaysUndefined(s: seq<Pix>, p: nat, k: nat)
    requires k >= 1 && EmitAsWritten(s, p, 1).None?
    ensures EmitAsWritten(s, p, k).None?
  {
    if k > 1 {
      AsWrittenStaysUndefined(s, p, k - 1);
    }
  }

  /** As written, the cursor does reach SLOTS: from pos = 0, after 500 frames of
      REP writes it equals 5000, and the first write of frame 501 goes to index
      10000 == GM, one past the last cell. */
  lemma AsWrittenOverrunsOnFrame501(s: seq<Pix>)
    requires |s| == GM
    ensures Counter.Iterate(500 * REP, 0, SLOTS) == SLOTS
    ensures SLOTS * SPREAD == GM
    ensures EmitAsWritten(s, Counter.Iterate(500 * REP, 0, SLOTS), REP).None?
  {
    Counter.IterateNoWrap(500 * REP, 0, SLOTS);
    AsWrittenStaysUndefined(s, SLOTS, REP);
  }

  /** From pos = 0 the as-written and corrected cursors agree after each of
      the first 499 frames; after frame 500 the as-written cursor is 5000 where
      the corrected one has wrapped to 0. */
  lemma {:induction false} CursorsSplitAfterFrame500(n: nat)
    ensures n <= 499 ==> Counter.Iterate(n * REP, 0, SLOTS) == Counter.Iterate(n * REP, 0, LAST) == n * REP
    ensures Counter.Iterate(500 * REP, 0, LAST) == 0
    ensures Counter.Iterate(500 * REP, 0, SLOTS) == SLOTS
  {
    if n <= 499 {
      Counter.IterateNoWrap(n * REP, 0, SLOTS);
      Counter.IterateNoWrap(n * REP, 0, LAST);
    }
    Counter.IterateClosedForm(500 * REP, 0, LAST);
    Counter.IterateNoWrap(500 * REP, 0, SLOTS);
  }

  /** Away from the wrap point the as-written and corrected passes agree. */
  lemma {:induction false} AsWrittenAgreesBeforeWrap(s: seq<Pix>, p: nat, k: nat)
    requires |s| == GM && p + k <= SLOTS
    ensures p <= LAST ==> EmitAsWritten(s, p, k) == Some(Emit(s, p, k))
  {
    if k > 0 && p <= LAST {
      AsWrittenAgreesBeforeWrap(s, p, k - 1);
      Counter.IterateNoWrap(k - 1, p, SLOTS);
      Counter.IterateNoWrap(k - 1, p, LAST);
    }
  }

  // ---------------------------------------------------------------------------
  // The grid state, updated in place once per frame

  /** The program's global `state.pd` with the emitter cursor `pos`. */
  class Field {
    /** The pixel buffer `new Pix[gm]`. */
    var pd: array<Pix>
    /** The emitter cursor. */
    var pos: nat
    /** Frames stepped so far. */
    ghost var frames: nat

    /** The buffer has GM cells and the cursor a value whose write is in bounds. */
    ghost predicate Shaped()
      reads this
    {
      pd.Length == GM && pos <= LAST
    }

    /** Shaped, and the cursor depends only on how many frames have run:
        REP advances per frame from 0. */
    ghost predicate Valid()
      reads this
    {
      Shaped() && pos == Counter.Iterate(frames * REP, 0, LAST)
    }

    /** A fresh buffer of indeterminate contents, cursor at 0. */
    constructor ()
      ensures Valid() && fresh(pd) && pos == 0 && frames == 0
    {
      pd := new Pix[GM];
      pos := 0;
      frames := 0;
    }

    /** The emit pass: REP red writes at successive cursor values. */
    method EmitPass()
      requires Shaped()
      modifies this`pos, pd
      ensures Shaped()
      ensures pd[..] == Emit(old(pd[..]), old(pos), REP)
      ensures pos == CursorAt(old(pos), REP)
    {
      var j: nat := 0;
      while j < REP
        invariant j <= REP && Shaped()
        invariant pos == CursorAt(old(pos), j)
        invariant pd[..] == Emit(old(pd[..]), old(pos), j)
      {
        pd[pos * SPREAD] := RED;
        pos := Advance(pos);
        j := j + 1;
      }
    }

    /** The decay pass over every cell. */
    method DecayPass()
      modifies pd
      ensures forall i :: 0 <= i < pd.Length ==> pd[i] == DecayPix(old(pd[i]))
    {
      for i := 0 to pd.Length
        invariant forall k :: 0 <= k < i ==> pd[k] == DecayPix(old(pd[k]))
        invariant forall k :: i <= k < pd.Length ==> pd[k] == old(pd[k])
      {
        var p := pd[i];
        if p.r > 0 {
          p := p.(r := p.r - 1);
        }
        if p.g > 0 {
          p := p.(g := p.g - 1);
        }
        if p.b > 0 {
          p := p.(b := p.b - 1);
        }
        pd[i] := p;
      }
    }

    /** The pointer pass. */
    method PointerPass(mx: int, my: int)
      requires pd.Length == GM
      modifies pd
      ensures pd[..] == Stamp(old(pd[..]), mx, my)
    {
      if mx >= 0 && mx < GW && my >= 0 && my < GH {
        pd[mx + my * GW] := GREEN;
      }
    }

    /** One frame of the render loop, with the last pointer position seen. */
    method Step(mx: int, my: int)
      requires Valid()
      modifies this, pd
      ensures Valid() && pd == old(pd) && frames == old(frames) + 1
      ensures pos == CursorAt(old(pos), REP)
      ensures pd[..] == Frame(old(pd[..]), old(pos), mx, my)
      ensures forall i :: 0 <= i < GM ==>
        pd[i] == if PointedAt(mx, my, i) then GREEN
                 else if Emitted(old(pos), REP, i) then FADED_RED
                 else DecayPix(old(pd[i]))
    {
      ghost var s := pd[..];
      ghost var p := pos;
      EmitPass();
      ghost var e := pd[..];
      DecayPass();
      assert pd[..] == DecayAll(e);
      PointerPass(mx, my);
      Counter.IterateAdd(frames * REP, REP, 0, LAST);
      frames := frames + 1;
      forall i | 0 <= i < GM
        ensures pd[i] == if PointedAt(mx, my, i) then GREEN
                         else if Emitted(p, REP, i) then FADED_RED
                         else DecayPix(s[i])
      {
        FrameAt(s, p, mx, my, i);
        assert pd[i] == pd[..][i];
      }
    }
  }

  /** After `n` frames the cursor is n * REP mod SLOTS, whatever the pointer did. */
  lemma CursorAfterFrames(n: nat)
    ensures Counter.Iterate(n * REP, 0, LAST) == (n * REP) % SLOTS
  {
    Counter.IterateClosedForm(n * REP, 0, LAST);
  }
}
