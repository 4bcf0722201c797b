/**
 * The sprite-sheet builder of src/husfort/utility/create_sprites_sheet.py:
 * which files are taken and in which order, how many rows the sheet has,
 * and where each sprite is pasted. Directory listing and image I/O are not
 * modelled: the listing and the first sprite's size are parameters.
 */
module Sprites {

  import opened Wrappers
  import opened PyStr
  import StrSort
  import PySeq
  import Numeric

  /* -------------------------------------------------------------- files */

  /** A name the builder takes: ending in ".png" or ".PNG". */
  predicate IsPng(name: string) {
    EndsWith(name, ".png") || EndsWith(name, ".PNG")
  }

  /** The names that are PNG files, in listing order. */
  function PngFilter(names: seq<string>): (r: seq<string>)
    ensures forall x :: x in r <==> x in names && IsPng(x)
    ensures multiset(r) <= multiset(names)
    ensures forall i :: 0 <= i < |r| ==> IsPng(r[i])
  {
    if |names| == 0 then []
    else
      var init := names[..|names| - 1];
      var last := names[|names| - 1];
      assert names == init + [last];
      PngFilter(init) + (if IsPng(last) then [last] else [])
  }

  /** `get_pngs(listing, reverse)`: the PNG names sorted, descending when
      `reverse` is set. */
  function GetPngs(names: seq<string>, reverse: bool): (r: seq<string>)
    ensures multiset(r) == multiset(PngFilter(names))
    ensures |r| == |PngFilter(names)|
    ensures forall x :: x in r <==> x in names && IsPng(x)
    ensures !reverse ==> StrSort.Ordered(r)
    ensures reverse ==> StrSort.Ordered(PySeq.Reverse(r))
  {
    var sorted := StrSort.Sort(PngFilter(names));
    if reverse then
      var r := PySeq.Reverse(sorted);
      assert PySeq.Reverse(r) == sorted;
      assert multiset(r) == multiset(sorted) by {
        ReverseMultiset(sorted);
      }
      assert forall x :: x in r <==> x in multiset(r);
      r
    else
      assert forall x :: x in sorted <==> x in multiset(sorted);
      sorted
  }

  lemma {:induction false} ReverseMultiset<T>(s: seq<T>)
    ensures multiset(PySeq.Reverse(s)) == multiset(s)
    decreases |s|
  {
    if |s| > 0 {
      var t := s[1..];
      ReverseMultiset(t);
      assert PySeq.Reverse(s) == PySeq.Reverse(t) + [s[0]];
      assert s == [s[0]] + t;
    }
  }

  /* --------------------------------------------------------------- grid */

  /** `cal_nrow(tot, ncol)`: `tot // ncol`, one more when a remainder is
      left; Python refuses a zero column count. */
  function CalNrow(tot: int, ncol: int): (r: Result<int>)
    ensures ncol == 0 <==> r == Err(ZeroDivisionError)
    ensures ncol > 0 ==> r.Ok? && (r.value - 1) * ncol < tot <= r.value * ncol
    ensures ncol > 0 && tot > 0 ==> r.value > 0
  {
    if ncol == 0 then Err(ZeroDivisionError)
    else
      var q := Numeric.FloorDiv(tot, ncol);
      var m := Numeric.FloorMod(tot, ncol);
      Ok(if m > 0 then q + 1 else q)
  }

  /** For a positive column count the row count is the least that holds
      every sprite. */
  lemma CalNrowLeast(tot: int, ncol: int, rows: int)
    requires ncol > 0 && tot <= rows * ncol
    ensures CalNrow(tot, ncol).value <= rows
  {
  }

  /** The grid cell of sprite `sn`: column `sn % ncol`, row `sn // ncol`. */
  function Cell(sn: nat, ncol: int): (c: (int, int))
    requires ncol != 0
    ensures ncol > 0 ==> 0 <= c.0 < ncol && c.1 * ncol + c.0 == sn
  {
    (Numeric.FloorMod(sn, ncol), Numeric.FloorDiv(sn, ncol))
  }

  /** Different sprites go to different cells. */
  lemma CellsDistinct(a: nat, b: nat, ncol: int)
    requires ncol > 0 && a != b
    ensures Cell(a, ncol) != Cell(b, ncol)
  {
  }

  /** Every sprite's row lies inside the sheet. */
  lemma CellInside(sn: nat, tot: nat, ncol: int)
    requires ncol > 0 && sn < tot
    ensures Cell(sn, ncol).1 < CalNrow(tot, ncol).value
  {
  }

  datatype Sheet = Sheet(width: int, height: int, boxes: seq<(int, int)>)

  /** The body of the builder for a listing: None when there is no PNG;
      otherwise the canvas of `ncol` by `nrow` sprites of the first one's
      size and the top-left corner where each sprite is pasted. A negative
      canvas side is refused by the image library. */
  function Layout(names: seq<string>, ncol: int, w: nat, h: nat): (r: Result<Option<Sheet>>)
    ensures |PngFilter(names)| == 0 ==> r == Ok(None)
    ensures |PngFilter(names)| > 0 && ncol == 0 ==> r == Err(ZeroDivisionError)
    ensures |PngFilter(names)| > 0 && ncol > 0 ==>
      r.Ok? && r.value.Some? && r.value.value == Grid(|PngFilter(names)|, ncol, w, h)
  {
    var pngs := GetPngs(names, false);
    if |pngs| == 0 then Ok(None)
    else
      var nrow :- CalNrow(|pngs|, ncol);
      if Side(w, ncol) < 0 || Side(h, nrow) < 0 then Err(ValueError)
      else Ok(Some(Sheet(Side(w, ncol), Side(h, nrow), Boxes(|pngs|, ncol, w, h))))
  }

  /** A canvas side: a sprite side times a sprite count. */
  function Side(k: nat, n: int): (r: int)
    ensures n >= 0 ==> r >= 0
    ensures n > 0 ==> r >= k
  {
    if n >= 1 then
      Scale(k, 1, n);
      k * n
    else if n == 0 then 0
    else k * n
  }

  /** The sheet for `n` sprites in `ncol` columns. */
  function Grid(n: nat, ncol: int, w: nat, h: nat): Sheet
    requires ncol > 0
  {
    var nrow := CalNrow(n, ncol).value;
    Sheet(Side(w, ncol), Side(h, nrow), Boxes(n, ncol, w, h))
  }

  /** The top-left corners of the first n sprites. */
  function Boxes(n: nat, ncol: int, w: nat, h: nat): (r: seq<(int, int)>)
    requires ncol != 0
    ensures |r| == n
    ensures forall sn :: 0 <= sn < n ==> r[sn] == (Side(w, Cell(sn, ncol).0), Side(h, Cell(sn, ncol).1))
  {
    seq(n, sn requires 0 <= sn < n => (Side(w, Cell(sn, ncol).0), Side(h, Cell(sn, ncol).1)))
  }

  /** Each pasted sprite lies inside the canvas. */
  lemma GridFits(n: nat, ncol: int, w: nat, h: nat)
    requires ncol > 0
    ensures var s := Grid(n, ncol, w, h);
            forall i :: 0 <= i < |s.boxes| ==>
              0 <= s.boxes[i].0 && s.boxes[i].0 + w <= s.width &&
              0 <= s.boxes[i].1 && s.boxes[i].1 + h <= s.height
  {
    var s := Grid(n, ncol, w, h);
    forall i | 0 <= i < |s.boxes|
      ensures 0 <= s.boxes[i].0 && s.boxes[i].0 + w <= s.width
      ensures 0 <= s.boxes[i].1 && s.boxes[i].1 + h <= s.height
    {
      BoxInside(i, n, ncol, w, h);
    }
  }

  lemma BoxInside(i: nat, n: nat, ncol: int, w: nat, h: nat)
    requires ncol > 0 && i < n
    ensures var c := Cell(i, ncol);
            && 0 <= Side(w, c.0) && Side(w, c.0) + w <= Side(w, ncol)
            && 0 <= Side(h, c.1) && Side(h, c.1) + h <= Side(h, CalNrow(n, ncol).value)
  {
    var c := Cell(i, ncol);
    CellInside(i, n, ncol);
    assert 0 <= c.1 by {
      CellRowNonNegative(i, ncol);
    }
    SideStep(w, c.0, ncol);
    SideStep(h, c.1, CalNrow(n, ncol).value);
  }

  lemma CellRowNonNegative(sn: nat, ncol: int)
    requires ncol > 0
    ensures Cell(sn, ncol).1 >= 0
  {
  }

  /** No two sprites share a corner when the sprites have a size. */
  lemma GridDistinct(n: nat, ncol: int, w: nat, h: nat)
    requires ncol > 0 && w > 0 && h > 0
    ensures var s := Grid(n, ncol, w, h);
            forall i, j :: 0 <= i < j < |s.boxes| ==> s.boxes[i] != s.boxes[j]
  {
    var s := Grid(n, ncol, w, h);
    forall i, j | 0 <= i < j < |s.boxes| ensures s.boxes[i] != s.boxes[j] {
      BoxesDiffer(i, j, ncol, w, h);
    }
  }

  lemma BoxesDiffer(i: nat, j: nat, ncol: int, w: nat, h: nat)
    requires ncol > 0 && w > 0 && h > 0 && i != j
    ensures (Side(w, Cell(i, ncol).0), Side(h, Cell(i, ncol).1))
         != (Side(w, Cell(j, ncol).0), Side(h, Cell(j, ncol).1))
  {
    CellsDistinct(i, j, ncol);
    var a, b := Cell(i, ncol), Cell(j, ncol);
    if a.0 != b.0 {
      ScaleInjective(w, a.0, b.0);
    } else {
      ScaleInjective(h, a.1, b.1);
    }
  }

  /** A corner in cell a < b ends within b cells. */
  lemma SideStep(k: nat, a: int, b: int)
    requires 0 <= a < b
    ensures 0 <= Side(k, a) && Side(k, a) + k <= Side(k, b)
  {
    Scale(k, a + 1, b);
    assert k * (a + 1) == k * a + k;
  }

  lemma Scale(k: nat, a: int, b: int)
    requires a <= b
    ensures k * a <= k * b
  {
  }

  lemma ScaleInjective(k: nat, a: int, b: int)
    requires k > 0 && a != b
    ensures k * a != k * b
  {
    if a < b {
      Scale(k, a + 1, b);
      assert k * (a + 1) == k * a + k;
    } else {
      Scale(k, b + 1, a);
      assert k * (b + 1) == k * b + k;
    }
  }
}
