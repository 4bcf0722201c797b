/**
 * The palette viewer of src/husfort/utility/view_palette.py: hex colours
 * read as RGB triples, palettes built from a name-to-colours dict, and the
 * rows the viewer puts in its table (one row per unit of block height, the
 * colour labels on the first row only). Terminal rendering is not modelled;
 * a table row is the three cell texts.
 */
module Palette {

  import opened Wrappers
  import opened PyStr
  import PyInt
  import Dicts

  datatype Rgb = Rgb(r: int, g: int, b: int)

  datatype Block = Block(hex: string, width: int, height: int)

  datatype Pal = Pal(name: string, blocks: seq<Block>)

  /* ----------------------------------------------------------- colours */

  /** `s.lstrip("#")`. */
  function LStripHash(s: string): (r: string)
    ensures EndsWith(s, r)
    ensures |r| > 0 ==> r[0] != '#'
    ensures |s| > 0 && s[0] != '#' ==> r == s
  {
    if |s| > 0 && s[0] == '#' then
      var r := LStripHash(s[1..]);
      assert s[|s| - |r|..] == s[1..][|s[1..]| - |r|..];
      r
    else s
  }

  /** `Block.color_rgb`: characters 0-2, 2-4 and 4-6 after the hashes, each
      read by `int(_, 16)`. */
  function ColorRgb(b: Block): (r: Result<Rgb>)
    ensures var h := LStripHash(b.hex);
            r.Ok? <==> PyInt.ParseInt(Slice(h, 0, 2), 16).Ok?
                       && PyInt.ParseInt(Slice(h, 2, 4), 16).Ok?
                       && PyInt.ParseInt(Slice(h, 4, 6), 16).Ok?
    ensures r.Err? ==> r.error == ValueError
    ensures r.Ok? ==> r.value.r == PyInt.ParseInt(Slice(LStripHash(b.hex), 0, 2), 16).value
  {
    var h := LStripHash(b.hex);
    var red :- PyInt.ParseInt(Slice(h, 0, 2), 16);
    var green :- PyInt.ParseInt(Slice(h, 2, 4), 16);
    var blue :- PyInt.ParseInt(Slice(h, 4, 6), 16);
    Ok(Rgb(red, green, blue))
  }

  /** The colour written as "#rrggbb" in lower-case hex. */
  function HexOf(c: Rgb): string
    requires 0 <= c.r < 256 && 0 <= c.g < 256 && 0 <= c.b < 256
  {
    "#" + PyInt.Hex2(c.r) + PyInt.Hex2(c.g) + PyInt.Hex2(c.b)
  }

  /** Reading a written colour gives the colour back. */
  lemma ColorRgbHex(c: Rgb, width: int, height: int)
    requires 0 <= c.r < 256 && 0 <= c.g < 256 && 0 <= c.b < 256
    ensures ColorRgb(Block(HexOf(c), width, height)) == Ok(c)
  {
    var h := PyInt.Hex2(c.r) + PyInt.Hex2(c.g) + PyInt.Hex2(c.b);
    assert HexOf(c) == "#" + h;
    assert HexOf(c)[1..] == h;
    assert LStripHash(HexOf(c)) == h by {
      assert PyInt.DigitOf(h[0], 16).Some?;
    }
    assert Slice(h, 0, 2) == PyInt.Hex2(c.r);
    assert Slice(h, 2, 4) == PyInt.Hex2(c.g);
    assert Slice(h, 4, 6) == PyInt.Hex2(c.b);
    PyInt.ParseHex2(c.r);
    PyInt.ParseHex2(c.g);
    PyInt.ParseHex2(c.b);
  }

  /** Two hex digits read as a number below 256. */
  lemma TwoHexDigits(s: string)
    requires |s| == 2 && PyInt.DigitOf(s[0], 16).Some? && PyInt.DigitOf(s[1], 16).Some?
    ensures PyInt.ParseInt(s, 16).Ok?
    ensures 0 <= PyInt.ParseInt(s, 16).value < 256
  {
    assert !PyInt.IsSpace(s[0]) && !PyInt.IsSpace(s[1]);
    assert PyInt.StripSpaces(s) == s;
    assert PyInt.Digits(s, 16) == s by {
      assert PyInt.DigitOf(s[1], 16).Some?;
    }
    PyInt.RunValueTwo(s, 16);
  }

  /** Characters i and i + 1 of h, read as two hex digits. */
  lemma HexPair(h: string, i: nat)
    requires i + 2 <= |h|
    requires PyInt.DigitOf(h[i], 16).Some? && PyInt.DigitOf(h[i + 1], 16).Some?
    ensures PyInt.ParseInt(Slice(h, i, i + 2), 16).Ok?
    ensures 0 <= PyInt.ParseInt(Slice(h, i, i + 2), 16).value < 256
  {
    var p := Slice(h, i, i + 2);
    assert p == h[i..i + 2];
    assert p[0] == h[i] && p[1] == h[i + 1];
    TwoHexDigits(p);
  }

  /** With six hex digits after the hashes every component is a byte. */
  lemma ColorRgbBytes(b: Block)
    requires var h := LStripHash(b.hex);
             |h| >= 6 && forall i :: 0 <= i < 6 ==> PyInt.DigitOf(h[i], 16).Some?
    ensures ColorRgb(b).Ok?
    ensures var c := ColorRgb(b).value; 0 <= c.r < 256 && 0 <= c.g < 256 && 0 <= c.b < 256
  {
    var red, green, blue := HexTriple(LStripHash(b.hex));
    ColorRgbOf(b, red, green, blue);
  }

  /** Six hex digits read in pairs give three bytes. */
  lemma HexTriple(h: string) returns (red: int, green: int, blue: int)
    requires |h| >= 6 && forall i :: 0 <= i < 6 ==> PyInt.DigitOf(h[i], 16).Some?
    ensures PyInt.ParseInt(Slice(h, 0, 2), 16) == Ok(red) && 0 <= red < 256
    ensures PyInt.ParseInt(Slice(h, 2, 4), 16) == Ok(green) && 0 <= green < 256
    ensures PyInt.ParseInt(Slice(h, 4, 6), 16) == Ok(blue) && 0 <= blue < 256
  {
    assert PyInt.DigitOf(h[0], 16).Some? && PyInt.DigitOf(h[1], 16).Some?;
    assert PyInt.DigitOf(h[2], 16).Some? && PyInt.DigitOf(h[3], 16).Some?;
    assert PyInt.DigitOf(h[4], 16).Some? && PyInt.DigitOf(h[5], 16).Some?;
    HexPair(h, 0);
    HexPair(h, 2);
    HexPair(h, 4);
    red := PyInt.ParseInt(Slice(h, 0, 2), 16).value;
    green := PyInt.ParseInt(Slice(h, 2, 4), 16).value;
    blue := PyInt.ParseInt(Slice(h, 4, 6), 16).value;
  }

  lemma ColorRgbOf(b: Block, red: int, green: int, blue: int)
    requires var h := LStripHash(b.hex);
      && PyInt.ParseInt(Slice(h, 0, 2), 16) == Ok(red)
      && PyInt.ParseInt(Slice(h, 2, 4), 16) == Ok(green)
      && PyInt.ParseInt(Slice(h, 4, 6), 16) == Ok(blue)
    ensures ColorRgb(b) == Ok(Rgb(red, green, blue))
  {
  }

  /** `f"({r}, {g}, {b})"`. */
  function RgbText(c: Rgb): (s: string)
    ensures |s| > 0 && s[0] == '(' && s[|s| - 1] == ')'
  {
    "(" + IntToDecimal(c.r) + ", " + IntToDecimal(c.g) + ", " + IntToDecimal(c.b) + ")"
  }

  /** `Block.color_rgb_as_string`. */
  function ColorRgbAsString(b: Block): (r: Result<string>)
    ensures r.Ok? <==> ColorRgb(b).Ok?
    ensures r.Ok? ==> r.value == RgbText(ColorRgb(b).value)
    ensures r.Err? ==> r.error == ValueError
  {
    var c :- ColorRgb(b);
    Ok(RgbText(c))
  }

  /** A number written by `str`, with or without a leading space, holds
      no comma. */
  lemma NoComma(n: int)
    ensures forall i :: 0 <= i < |IntToDecimal(n)| ==> IntToDecimal(n)[i] != ','
    ensures forall i :: 0 <= i < |" " + IntToDecimal(n)| ==> (" " + IntToDecimal(n))[i] != ','
  {
    var d := NatToDecimal(if n >= 0 then n else -n);
    assert forall i :: 0 <= i < |d| ==> IsDigit(d[i]);
  }

  /** `int(" 7")` is 7: one leading space is stripped. */
  lemma ParseSpaced(n: int)
    ensures PyInt.ParseInt(" " + IntToDecimal(n), 10) == Ok(n)
  {
    var s := IntToDecimal(n);
    var d := NatToDecimal(if n >= 0 then n else -n);
    assert IsDigit(d[0]) && IsDigit(d[|d| - 1]);
    assert !PyInt.IsSpace(s[0]) && !PyInt.IsSpace(s[|s| - 1]);
    assert (" " + s)[1..] == s;
    assert PyInt.StripSpaces(" " + s) == s;
    PyInt.ParseIntDecimal(n);
  }

  /** The text between the parentheses of `RgbText(c)`. */
  lemma RgbTextInner(c: Rgb)
    ensures var s := RgbText(c);
            s[1..|s| - 1] == IntToDecimal(c.r) + [','] + (" " + IntToDecimal(c.g)) + [','] + (" " + IntToDecimal(c.b))
  {
  }

  /** Three numbers joined by ", " split on "," into the numbers, the last
      two with their leading space. */
  lemma SplitTriple(r: string, g: string, b: string)
    requires forall i :: 0 <= i < |r| ==> r[i] != ','
    requires forall i :: 0 <= i < |g| ==> g[i] != ','
    requires forall i :: 0 <= i < |b| ==> b[i] != ','
    ensures Split(r + [','] + g + [','] + b, ',') == [r, g, b]
  {
    SplitAbsent(r, ',');
    SplitLast(r, ',', g);
    SplitLast(r + [','] + g, ',', b);
  }

  /** The text between the parentheses splits on "," into three pieces
      that `int()` reads back as the three components. */
  lemma RgbTextParses(c: Rgb)
    ensures var s := RgbText(c);
            var pieces := Split(s[1..|s| - 1], ',');
            && |pieces| == 3
            && PyInt.ParseInt(pieces[0], 10) == Ok(c.r)
            && PyInt.ParseInt(pieces[1], 10) == Ok(c.g)
            && PyInt.ParseInt(pieces[2], 10) == Ok(c.b)
  {
    NoComma(c.r);
    NoComma(c.g);
    NoComma(c.b);
    RgbTextInner(c);
    SplitTriple(IntToDecimal(c.r), " " + IntToDecimal(c.g), " " + IntToDecimal(c.b));
    PyInt.ParseIntDecimal(c.r);
    ParseSpaced(c.g);
    ParseSpaced(c.b);
  }

  /* ---------------------------------------------------------- palettes */

  /** `get_palettes(data, width, height)`: one palette per entry, in the
      dict's order, one block per colour, all of the given size. */
  function GetPalettes(data: Dicts.Dict<string, seq<string>>, width: int, height: int): (r: seq<Pal>)
    ensures |r| == |data|
    ensures forall i :: 0 <= i < |r| ==>
      && |r[i].blocks| == |data[i].1|
      && forall j :: 0 <= j < |r[i].blocks| ==> r[i].blocks[j].hex == data[i].1[j]
    ensures forall i, j :: 0 <= i < |r| && 0 <= j < |r[i].blocks| ==>
      r[i].blocks[j].width == width && r[i].blocks[j].height == height
  {
    if |data| == 0 then []
    else
      var (name, colours) := data[|data| - 1];
      GetPalettes(data[..|data| - 1], width, height)
        + [Pal(name, seq(|colours|, j requires 0 <= j < |colours| => Block(colours[j], width, height)))]
  }

  function Names(ps: seq<Pal>): (ns: seq<string>)
    ensures |ns| == |ps|
  {
    if |ps| == 0 then [] else Names(ps[..|ps| - 1]) + [ps[|ps| - 1].name]
  }

  /** The palettes are named by the dict's keys, in order. */
  lemma {:induction false} GetPalettesNames(data: Dicts.Dict<string, seq<string>>, width: int, height: int)
    ensures Names(GetPalettes(data, width, height)) == Dicts.Keys(data)
    decreases |data|
  {
    if |data| > 0 {
      var init := data[..|data| - 1];
      var last := GetPalettesSnoc(data, width, height);
      NamesSnoc(GetPalettes(init, width, height), last);
      GetPalettesNames(init, width, height);
      KeysSnoc(data);
    }
  }

  /** The last palette is named by the last key. */
  lemma GetPalettesSnoc(data: Dicts.Dict<string, seq<string>>, width: int, height: int) returns (last: Pal)
    requires |data| > 0
    ensures GetPalettes(data, width, height) == GetPalettes(data[..|data| - 1], width, height) + [last]
    ensures last.name == data[|data| - 1].0
  {
    last := GetPalettes(data, width, height)[|data| - 1];
  }

  lemma KeysSnoc(data: Dicts.Dict<string, seq<string>>)
    requires |data| > 0
    ensures Dicts.Keys(data) == Dicts.Keys(data[..|data| - 1]) + [data[|data| - 1].0]
  {
    var init := data[..|data| - 1];
    var ks, ki := Dicts.Keys(data), Dicts.Keys(init) + [data[|data| - 1].0];
    assert |ks| == |ki|;
    forall i | 0 <= i < |ks|
      ensures ks[i] == ki[i]
    {
      if i < |init| {
        assert ki[i] == Dicts.Keys(init)[i] == init[i].0;
      }
    }
  }

  lemma NamesSnoc(ps: seq<Pal>, p: Pal)
    ensures Names(ps + [p]) == Names(ps) + [p.name]
  {
    assert (ps + [p])[..|ps|] == ps;
  }

  /* -------------------------------------------------------- table rows */

  datatype Row = Row(hex: string, rgb: string, example: string)

  /** `f"{s:>{w}s}"` for w >= 0: s right-aligned in w characters. */
  function RJust(s: string, w: nat): (r: string)
    ensures |r| == if w > |s| then w else |s|
    ensures EndsWith(r, s)
    ensures forall i :: 0 <= i < |r| - |s| ==> r[i] == ' '
  {
    if w > |s| then seq(w - |s|, i => ' ') + s else s
  }

  /** The example cell: the block's colour as rich markup around an "a"
      right-aligned to the block width. A negative width is a sign in the
      format spec, which `str.__format__` rejects. */
  function Example(b: Block): (r: Result<string>)
    ensures r.Ok? <==> b.width >= 0
    ensures r.Err? ==> r.error == ValueError
    ensures r.Ok? ==> |r.value| == |b.hex| * 2 + 6 + (if b.width > 1 then b.width else 1)
  {
    if b.width < 0 then Err(ValueError)
    else Ok("[" + b.hex + " on " + b.hex + "]" + RJust("a", b.width))
  }

  /** The rows of one block: `height` rows (none when it is not positive),
      the hex and RGB labels on the first only. */
  function BlockRows(b: Block, rgb: string): (r: Result<seq<Row>>)
    ensures r.Ok? <==> b.height <= 0 || b.width >= 0
    ensures r.Err? ==> r.error == ValueError
    ensures r.Ok? ==> |r.value| == (if b.height > 0 then b.height else 0)
    ensures r.Ok? ==> forall i :: 0 <= i < |r.value| ==>
      && r.value[i].example == Example(b).value
      && r.value[i].hex == (if i == 0 then b.hex else "")
      && r.value[i].rgb == (if i == 0 then rgb else "")
  {
    if b.height <= 0 then Ok([])
    else
      var e :- Example(b);
      Ok(seq(b.height, i => if i == 0 then Row(b.hex, rgb, e) else Row("", "", e)))
  }

  /** The rows contributed by every block of a palette. */
  function TotalHeight(bs: seq<Block>): nat {
    if |bs| == 0 then 0
    else TotalHeight(bs[..|bs| - 1]) + (if bs[|bs| - 1].height > 0 then bs[|bs| - 1].height else 0)
  }

  /** Whether a block can be drawn: its colour parses and, when it has
      rows, its width is no sign. */
  predicate Drawable(b: Block) {
    ColorRgb(b).Ok? && (b.height <= 0 || b.width >= 0)
  }

  /** The body of `plot_palette`: the table rows, block by block. The RGB
      text is computed before the height loop, so a bad colour fails even
      for a block without rows. A drawn palette has one row per unit of
      block height; a palette that does not draw fails with ValueError. */
  function PlotRows(bs: seq<Block>): (r: Result<seq<Row>>)
    ensures r.Err? ==> r.error == ValueError
    ensures r.Ok? ==> |r.value| == TotalHeight(bs)
  {
    if |bs| == 0 then Ok([])
    else
      var prev :- PlotRows(bs[..|bs| - 1]);
      var rows :- DrawBlock(bs[|bs| - 1]);
      Ok(prev + rows)
  }

  /** One block's rows, its RGB text computed first. */
  function DrawBlock(b: Block): (r: Result<seq<Row>>)
    ensures r.Ok? <==> Drawable(b)
    ensures r.Err? ==> r.error == ValueError
    ensures r.Ok? ==> |r.value| == (if b.height > 0 then b.height else 0)
  {
    var rgb :- ColorRgbAsString(b);
    BlockRows(b, rgb)
  }

  /** A palette draws exactly when each of its blocks can be drawn. */
  lemma PlotRowsOk(bs: seq<Block>)
    ensures PlotRows(bs).Ok? <==> forall j :: 0 <= j < |bs| ==> Drawable(bs[j])
  {
    if PlotRows(bs).Ok? {
      PlotRowsOkDrawable(bs);
    } else {
      PlotRowsErrBlock(bs);
    }
  }

  /** Every block of a drawn palette is drawable. */
  lemma PlotRowsOkDrawable(bs: seq<Block>)
    requires PlotRows(bs).Ok?
    ensures forall j :: 0 <= j < |bs| ==> Drawable(bs[j])
  {
    forall j | 0 <= j < |bs| ensures Drawable(bs[j]) {
      if !Drawable(bs[j]) {
        PlotRowsBlockErr(bs, j);
      }
    }
  }

  /** One block that cannot be drawn fails the palette. */
  lemma {:induction false} PlotRowsBlockErr(bs: seq<Block>, j: nat)
    requires j < |bs| && !Drawable(bs[j])
    ensures PlotRows(bs).Err?
    decreases |bs|
  {
    PlotRowsStep(bs);
    if j < |bs| - 1 {
      var init := bs[..|bs| - 1];
      assert init[j] == bs[j];
      PlotRowsBlockErr(init, j);
    }
  }

  /** A palette that fails to draw holds a block that cannot be drawn. */
  lemma {:induction false} PlotRowsErrBlock(bs: seq<Block>)
    requires PlotRows(bs).Err?
    ensures exists j :: 0 <= j < |bs| && !Drawable(bs[j])
    decreases |bs|
  {
    var init := bs[..|bs| - 1];
    PlotRowsStep(bs);
    if Drawable(bs[|bs| - 1]) {
      PlotRowsErrBlock(init);
      var j :| 0 <= j < |init| && !Drawable(init[j]);
      assert bs[j] == init[j];
    }
  }

  lemma PlotRowsStep(bs: seq<Block>)
    requires |bs| > 0
    ensures PlotRows(bs).Ok? <==> PlotRows(bs[..|bs| - 1]).Ok? && Drawable(bs[|bs| - 1])
  {
  }

  /** A palette built by `get_palettes` draws |colours| * height rows. */
  lemma {:induction false} PaletteRowCount(colours: seq<string>, width: int, height: int)
    requires height > 0
    ensures var bs := seq(|colours|, j requires 0 <= j < |colours| => Block(colours[j], width, height));
            TotalHeight(bs) == |colours| * height
    decreases |colours|
  {
    var bs := seq(|colours|, j requires 0 <= j < |colours| => Block(colours[j], width, height));
    if |colours| > 0 {
      var init := colours[..|colours| - 1];
      PaletteRowCount(init, width, height);
      assert bs[..|bs| - 1] == seq(|init|, j requires 0 <= j < |init| => Block(init[j], width, height));
    }
  }
}
