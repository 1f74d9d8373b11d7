/** A run of window operations after which the hit test and the picture disagree. */
module WrapRun {
  import opened Windows
  import D = Desktop

  /** Windows 0, 1 and 2 lie in one place and no other is open; the first keeps number 1. */
  ghost predicate Climbing(d: D.Desktop, lo: nat, hi: nat)
    reads d, d.wins
  {
    && d.Valid() && {lo, hi} == {1, 2}
    && (forall i :: 0 <= i < 3 ==> Visible(d.wins[i]) && d.wins[i].rect == Bounds(100, 100, 300, 200))
    && (forall i :: 3 <= i < MAX_WINDOWS ==> !d.wins[i].used)
    && d.wins[0].order == 1
  }

  method OpenThree() returns (d: D.Desktop)
    ensures fresh(d) && fresh(d.wins) && Climbing(d, 1, 2) && d.counter == 3 && d.wins[1].order == 2 && d.wins[2].order == 3
  {
    d := new D.Desktop(1024, 768);
    assert !d.wins[0].used && !d.wins[1].used && !d.wins[2].used;
    OpenNext(d, 0);
    OpenNext(d, 1);
    OpenNext(d, 2);
  }

  method OpenNext(d: D.Desktop, k: nat)
    requires d.Valid() && d.gw == 1024 && d.gh == 768 && k < 3 && d.counter == k
    requires forall i :: 0 <= i < MAX_WINDOWS ==> d.wins[i].used == (i < k)
    modifies d.wins, d`counter
    ensures d.Valid() && d.counter == k + 1 && Visible(d.wins[k]) && d.wins[k].rect == Bounds(100, 100, 300, 200) && d.wins[k].order == k + 1
    ensures forall i :: 0 <= i < MAX_WINDOWS ==> d.wins[i].used == (i < k + 1) && (i != k ==> d.wins[i] == old(d.wins[i]))
  {
    ghost var w := d.wins[..];
    assert forall i :: 0 <= i < MAX_WINDOWS ==> w[i] == d.wins[i];
    var r := d.Open(100, 100, 300, 200, 0);
    assert d.wins[..][k] == d.wins[k] && !w[k].used;
    assert r == k;
  }

  /** Raising the lower of the two changes places with the other and moves the counter by one. */
  method RaiseLower(d: D.Desktop, lo: nat, hi: nat)
    requires Climbing(d, lo, hi) && d.wins[lo].order < d.wins[hi].order
    modifies d.wins, d`counter
    ensures Climbing(d, hi, lo) && d.counter == old(d.Bumped()) && d.wins[lo].order == d.counter && d.wins[hi].order == old(d.wins[hi].order)
  {
    d.Raise(lo);
  }

  /** Three windows opened in one place; two of them raised in turn until the 32-bit counter has
      wrapped and hands the first window's number out again; the third hidden. The two left have
      equal numbers: the hit test returns the first, the picture shows the other. */
  method MakeTie() returns (d: D.Desktop, seen: nat)
    ensures fresh(d) && d.Valid() && 0 < seen < MAX_WINDOWS
    ensures Visible(d.wins[0]) && Visible(d.wins[seen]) && d.wins[0].order == d.wins[seen].order
    ensures IsTopAt(d.wins[..], MAX_WINDOWS, 150, 150, 0) && SeenAt(d.wins[..], PaintOrder(d.wins[..], MAX_WINDOWS), 150, 150) == seen
  {
    d := OpenThree();
    var lo: nat, hi: nat := 1, 2;
    while d.counter < MAX32
      invariant fresh(d) && fresh(d.wins)
      invariant Climbing(d, lo, hi) && d.counter >= 3 && d.wins[lo].order == d.counter - 1 && d.wins[hi].order == d.counter
      decreases MAX32 - d.counter
    {
      RaiseLower(d, lo, hi);
      lo, hi := hi, lo;
    }
    RaiseLower(d, lo, hi);
    assert Climbing(d, lo, hi);
    RaiseLower(d, lo, hi);
    d.Minimize(hi);
    seen := lo;
    OtherIsSeen(d.wins[..], lo);
  }

  lemma OtherIsSeen(ws: seq<Win>, lo: nat)
    requires |ws| == MAX_WINDOWS && 0 < lo < MAX_WINDOWS && Over(ws[0], 150, 150) && Over(ws[lo], 150, 150)
    requires ws[0].order == ws[lo].order && forall i :: 0 <= i < MAX_WINDOWS && i != 0 && i != lo ==> !Visible(ws[i])
    ensures SeenAt(ws, PaintOrder(ws, MAX_WINDOWS), 150, 150) == lo
  {
    var s := PaintOrder(ws, MAX_WINDOWS);
    PaintOrderSorted(ws, MAX_WINDOWS);
    PaintOrderStacked(ws, MAX_WINDOWS);
    SeenIsHighest(ws, s, 150, 150);
    SeenIsLast(ws, s, 150, 150);
    hide PaintOrder, SeenAt, Stacked, Ascending;
    assert lo in s && 0 in s;
  }
}
