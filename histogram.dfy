/** The colour histogram: three rows of 256 counters, one row per channel,
    updated in place, and its 768-line text form. */
module Histograms {
  import opened Machine
  import opened Pixels
  import opened Decimal

  const NumLevels := 256
  const NumLines := NumChannels * NumLevels

  /** Counter values, indexed by channel number and then by level. */
  predicate WellFormed(c: seq<seq<int>>)
  {
    |c| == NumChannels && forall ch :: 0 <= ch < NumChannels ==> |c[ch]| == NumLevels
  }

  /** The counters of a new histogram: all zero. */
  const Empty: seq<seq<int>> := seq(NumChannels, _ => seq(NumLevels, _ => 0))

  function Sum(s: seq<int>): int
  {
    if s == [] then 0 else Sum(s[..|s| - 1]) + s[|s| - 1]
  }

  /** Adding one to an entry adds one to the sum. */
  lemma {:induction false} SumIncrement(s: seq<int>, i: int)
    requires 0 <= i < |s|
    ensures Sum(s[i := s[i] + 1]) == Sum(s) + 1
  {
    var t := s[i := s[i] + 1];
    if i < |s| - 1 {
      SumIncrement(s[..|s| - 1], i);
      assert t[..|t| - 1] == s[..|s| - 1][i := s[i] + 1];
    } else {
      assert t[..|t| - 1] == s[..|s| - 1];
    }
  }

  /** `channels[ch][v]++`: the one counter goes up by one, every other
      counter keeps its value, and the channel's total goes up by one. */
  function Increment(c: seq<seq<int>>, ch: int, v: byte): (d: seq<seq<int>>)
    requires WellFormed(c) && 0 <= ch < NumChannels
    ensures WellFormed(d)
    ensures d[ch][v] == c[ch][v] + 1
    ensures forall ch', v' :: 0 <= ch' < NumChannels && 0 <= v' < NumLevels && (ch' != ch || v' != v)
              ==> d[ch'][v'] == c[ch'][v']
    ensures Sum(d[ch]) == Sum(c[ch]) + 1
    ensures forall ch' :: 0 <= ch' < NumChannels && ch' != ch ==> d[ch'] == c[ch']
  {
    SumIncrement(c[ch], v);
    c[ch := c[ch][v := c[ch][v] + 1]]
  }

  /** `add_color(p)`: one more count of its red, its green and its blue
      level, applied in that order, that is, exactly `add_red`, `add_green`
      and `add_blue` in sequence. */
  function AddColorCounts(c: seq<seq<int>>, p: Pixel): (d: seq<seq<int>>)
    requires WellFormed(c)
    ensures WellFormed(d)
    ensures forall ch :: 0 <= ch < NumChannels ==> Sum(d[ch]) == Sum(c[ch]) + 1
    ensures forall ch, v :: 0 <= ch < NumChannels && 0 <= v < NumLevels ==>
              d[ch][v] == c[ch][v] + (if p.Channel(ch) == v then 1 else 0)
  {
    Increment(Increment(Increment(c, RedChannel, p.red), GreenChannel, p.green), BlueChannel, p.blue)
  }

  // ---- the histogram of a sequence of pixels ----

  /** How many pixels of `ps` have level `v` in channel `ch`. */
  function Count(ps: seq<Pixel>, ch: int, v: int): (n: nat)
    requires 0 <= ch < NumChannels
    ensures n <= |ps|
  {
    if ps == [] then 0
    else Count(ps[..|ps| - 1], ch, v) + (if ps[|ps| - 1].Channel(ch) == v then 1 else 0)
  }

  /** The counters after adding every pixel of `ps` to a new histogram. */
  function HistogramOf(ps: seq<Pixel>): (c: seq<seq<int>>)
    ensures WellFormed(c)
  {
    seq(NumChannels, ch requires 0 <= ch < NumChannels =>
      seq(NumLevels, v requires 0 <= v < NumLevels => Count(ps, ch, v)))
  }

  lemma HistogramOfEmpty()
    ensures HistogramOf([]) == Empty
  {
    forall ch | 0 <= ch < NumChannels
      ensures HistogramOf([])[ch] == Empty[ch]
    {
    }
  }

  /** Adding one more pixel to the histogram of `ps` gives the histogram of
      `ps + [p]`. */
  lemma HistogramOfAppend(ps: seq<Pixel>, p: Pixel)
    ensures HistogramOf(ps + [p]) == AddColorCounts(HistogramOf(ps), p)
  {
    var qs := ps + [p];
    assert qs[..|qs| - 1] == ps;
    var lhs, rhs := HistogramOf(qs), AddColorCounts(HistogramOf(ps), p);
    forall ch | 0 <= ch < NumChannels
      ensures lhs[ch] == rhs[ch]
    {
    }
  }

  /** The histogram of concatenated sequences counts both. */
  lemma {:induction false} CountConcat(a: seq<Pixel>, b: seq<Pixel>, ch: int, v: int)
    requires 0 <= ch < NumChannels
    ensures Count(a + b, ch, v) == Count(a, ch, v) + Count(b, ch, v)
    decreases |b|
  {
    if b != [] {
      var ab := a + b;
      assert ab[..|ab| - 1] == a + b[..|b| - 1];
      CountConcat(a, b[..|b| - 1], ch, v);
    } else {
      assert a + b == a;
    }
  }

  /** Every channel of the histogram of `ps` counts each pixel exactly once. */
  lemma {:induction false} HistogramTotals(ps: seq<Pixel>, ch: int)
    requires 0 <= ch < NumChannels
    ensures Sum(HistogramOf(ps)[ch]) == |ps|
  {
    if ps == [] {
      assert HistogramOf(ps)[ch] == seq(NumLevels, _ => 0);
      ZeroSum(NumLevels);
    } else {
      var init := ps[..|ps| - 1];
      HistogramTotals(init, ch);
      HistogramOfAppend(init, ps[|ps| - 1]);
      assert init + [ps[|ps| - 1]] == ps;
    }
  }

  lemma {:induction false} ZeroSum(n: nat)
    ensures Sum(seq(n, _ => 0)) == 0
  {
    if n > 0 {
      ZeroSum(n - 1);
      assert seq(n, _ => 0)[..n - 1] == seq(n - 1, _ => 0);
    }
  }

  /** Replacing one pixel moves one count of each channel from the old
      pixel's level to the new pixel's level. */
  lemma {:induction false} CountUpdate(ps: seq<Pixel>, k: int, p: Pixel, ch: int, v: int)
    requires 0 <= k < |ps| && 0 <= ch < NumChannels
    ensures Count(ps[k := p], ch, v)
            == Count(ps, ch, v) - (if ps[k].Channel(ch) == v then 1 else 0) + (if p.Channel(ch) == v then 1 else 0)
  {
    var qs := ps[k := p];
    var n := |ps| - 1;
    if k == n {
      assert qs[..n] == ps[..n];
    } else {
      assert qs[..n] == ps[..n][k := p];
      CountUpdate(ps[..n], k, p, ch, v);
    }
  }

  /** A sequence of copies of one pixel counts all of them at its levels
      and none elsewhere. */
  lemma {:induction false} CountConstant(n: nat, p: Pixel, ch: int, v: int)
    requires 0 <= ch < NumChannels
    ensures Count(seq(n, _ => p), ch, v) == if p.Channel(ch) == v then n else 0
  {
    if n > 0 {
      CountConstant(n - 1, p, ch, v);
      assert seq(n, _ => p)[..n - 1] == seq(n - 1, _ => p);
    }
  }

  /** How many pixels `generate_histogram` adds: the product of the
      dimensions, or none when it is not positive. It is positive exactly
      when the two dimensions are both positive or both negative. */
  function Counted(w: int, h: int): (n: nat)
    ensures n > 0 <==> (w > 0 && h > 0) || (w < 0 && h < 0)
    ensures n > 0 ==> n == w * h
  {
    assert w * h > 0 <==> (w > 0 && h > 0) || (w < 0 && h < 0) by {
      if w < 0 && h > 0 { assert w * h == -((-w) * h); }
      if w > 0 && h < 0 { assert w * h == -(w * (-h)); }
      if w < 0 && h < 0 { assert w * h == (-w) * (-h); }
    }
    if w * h > 0 then w * h else 0
  }

  /** Adding pixel `i` to the histogram of the pixels before it gives the
      histogram of the first `i + 1` pixels. */
  lemma HistogramStep(ps: seq<Pixel>, i: nat)
    requires i < |ps|
    ensures HistogramOf(ps[..i + 1]) == AddColorCounts(HistogramOf(ps[..i]), ps[i])
  {
    assert ps[..i + 1] == ps[..i] + [ps[i]];
    HistogramOfAppend(ps[..i], ps[i]);
  }

  // ---- the text form (`write`) ----

  /** The channel written in block `b` of 256 lines: red, then green, then blue. */
  function ChannelOfBlock(b: int): (ch: int)
    requires 0 <= b < NumChannels
    ensures 0 <= ch < NumChannels
    ensures b == 0 <==> ch == RedChannel
    ensures b == 1 <==> ch == GreenChannel
    ensures b == 2 <==> ch == BlueChannel
  {
    if b == 0 then RedChannel else if b == 1 then GreenChannel else BlueChannel
  }

  function Line(n: int): string
  {
    IntToString(n) + "\n"
  }

  /** The 256 lines of one channel, in ascending level order. */
  function ChannelText(row: seq<int>): (lines: seq<string>)
    requires |row| == NumLevels
    ensures |lines| == NumLevels
    ensures forall v :: 0 <= v < NumLevels ==> lines[v] == Line(row[v])
  {
    seq(NumLevels, v requires 0 <= v < NumLevels => Line(row[v]))
  }

  /** The lines `write` emits; the stream receives their concatenation. */
  function Text(c: seq<seq<int>>): (lines: seq<string>)
    requires WellFormed(c)
    ensures |lines| == NumLines
  {
    ChannelText(c[ChannelOfBlock(0)]) + ChannelText(c[ChannelOfBlock(1)]) + ChannelText(c[ChannelOfBlock(2)])
  }

  /** Line `256 * b + v` of the text holds counter `v` of the channel of
      block `b`, and reading that line as an int gives the counter back. */
  lemma TextLine(c: seq<seq<int>>, b: int, v: int)
    requires WellFormed(c) && 0 <= b < NumChannels && 0 <= v < NumLevels
    ensures 0 <= NumLevels * b + v < NumLines
    ensures Text(c)[NumLevels * b + v] == Line(c[ChannelOfBlock(b)][v])
    ensures var line := Text(c)[NumLevels * b + v];
            |line| > 1 && line[|line| - 1] == '\n'
            && ParseInt(line[..|line| - 1]) == c[ChannelOfBlock(b)][v]
  {
    var k := NumLevels * b + v;
    assert k / NumLevels == b && k % NumLevels == v;
    var line := Text(c)[k];
    assert line[..|line| - 1] == IntToString(c[ChannelOfBlock(b)][v]);
    IntToStringParses(c[ChannelOfBlock(b)][v]);
  }

  // ---- the class `histogram` ----

  class Histogram {
    /** `channels`: row `ch` holds the 256 counters of channel `ch`. */
    const channels: array2<int>

    ghost predicate Valid()
      reads this
    {
      channels.Length0 == NumChannels && channels.Length1 == NumLevels
    }

    /** The counters, as values. */
    ghost function Counts(): (c: seq<seq<int>>)
      reads this, channels
      requires Valid()
      ensures WellFormed(c)
      ensures forall ch, v :: 0 <= ch < NumChannels && 0 <= v < NumLevels ==> c[ch][v] == channels[ch, v]
    {
      seq(NumChannels, ch requires 0 <= ch < NumChannels reads channels =>
        seq(NumLevels, v requires 0 <= v < NumLevels reads channels => channels[ch, v]))
    }

    /** A new histogram has every counter at zero. */
    constructor()
      ensures Valid() && fresh(channels)
      ensures Counts() == Empty
    {
      channels := new int[NumChannels, NumLevels]((_, _) => 0);
      new;
      forall ch | 0 <= ch < NumChannels
        ensures Counts()[ch] == Empty[ch]
      {
      }
    }

    /** The increment shared by the `add_*` members. */
    method Bump(ch: int, v: byte)
      requires Valid() && 0 <= ch < NumChannels
      modifies channels
      ensures Valid()
      ensures Counts() == Increment(old(Counts()), ch, v)
    {
      ghost var before := Counts();
      channels[ch, v] := channels[ch, v] + 1;
      ghost var expected := Increment(before, ch, v);
      forall c | 0 <= c < NumChannels
        ensures Counts()[c] == expected[c]
      {
      }
    }

    method AddRed(r: byte)
      requires Valid()
      modifies channels
      ensures Valid()
      ensures Counts() == Increment(old(Counts()), RedChannel, r)
    {
      Bump(RedChannel, r);
    }

    method AddGreen(g: byte)
      requires Valid()
      modifies channels
      ensures Valid()
      ensures Counts() == Increment(old(Counts()), GreenChannel, g)
    {
      Bump(GreenChannel, g);
    }

    method AddBlue(b: byte)
      requires Valid()
      modifies channels
      ensures Valid()
      ensures Counts() == Increment(old(Counts()), BlueChannel, b)
    {
      Bump(BlueChannel, b);
    }

    method AddColor(p: Pixel)
      requires Valid()
      modifies channels
      ensures Valid()
      ensures Counts() == AddColorCounts(old(Counts()), p)
    {
      Bump(RedChannel, p.red);
      Bump(GreenChannel, p.green);
      Bump(BlueChannel, p.blue);
    }

    function RedFrequency(v: byte): (n: int)
      reads this, channels
      requires Valid()
      ensures n == Counts()[RedChannel][v]
    {
      channels[RedChannel, v]
    }

    function GreenFrequency(v: byte): (n: int)
      reads this, channels
      requires Valid()
      ensures n == Counts()[GreenChannel][v]
    {
      channels[GreenChannel, v]
    }

    function BlueFrequency(v: byte): (n: int)
      reads this, channels
      requires Valid()
      ensures n == Counts()[BlueChannel][v]
    {
      channels[BlueChannel, v]
    }

    /** `write`: one line per counter, the red row first, then green, then
        blue, each in ascending level order. */
    method Write() returns (lines: seq<string>)
      requires Valid()
      ensures lines == Text(Counts())
    {
      ghost var c := Counts();
      lines := WriteChannel([], RedChannel);
      TextBlocks(c, 0);
      lines := WriteChannel(lines, GreenChannel);
      TextBlocks(c, 1);
      lines := WriteChannel(lines, BlueChannel);
      TextBlocks(c, 2);
      assert lines == Text(c)[..NumLines];
    }

    /** One range-for loop of `write`: a line for each counter of channel
        `ch`, after the lines already written. */
    method WriteChannel(written: seq<string>, ch: int) returns (lines: seq<string>)
      requires Valid() && 0 <= ch < NumChannels
      ensures lines == written + ChannelText(Counts()[ch])
    {
      ghost var row := Counts()[ch];
      lines := written;
      for v := 0 to NumLevels
        invariant lines == written + ChannelText(row)[..v]
      {
        assert ChannelText(row)[..v + 1] == ChannelText(row)[..v] + [Line(row[v])];
        lines := lines + [Line(channels[ch, v])];
      }
      assert ChannelText(row)[..NumLevels] == ChannelText(row);
    }
  }

  /** The first `b + 1` blocks of the text are the first `b` blocks and the
      lines of block `b`. */
  lemma TextBlocks(c: seq<seq<int>>, b: int)
    requires WellFormed(c) && 0 <= b < NumChannels
    ensures Text(c)[..NumLevels * (b + 1)]
            == Text(c)[..NumLevels * b] + ChannelText(c[ChannelOfBlock(b)])[..NumLevels]
  {
    var red, green, blue := ChannelText(c[ChannelOfBlock(0)]), ChannelText(c[ChannelOfBlock(1)]), ChannelText(c[ChannelOfBlock(2)]);
    assert red[..NumLevels] == red && green[..NumLevels] == green && blue[..NumLevels] == blue;
    if b == 0 {
      assert Text(c)[..NumLevels] == red;
    } else if b == 1 {
      assert Text(c)[..NumLevels] == red;
      assert Text(c)[..2 * NumLevels] == red + green;
    } else {
      assert Text(c)[..2 * NumLevels] == red + green;
      assert Text(c)[..3 * NumLevels] == red + green + blue;
    }
  }

  /** Each line of the text is the line of the counter it stands for. */
  lemma TextAt(c: seq<seq<int>>, k: int)
    requires WellFormed(c) && 0 <= k < NumLines
    ensures 0 <= k / NumLevels < NumChannels && 0 <= k % NumLevels < NumLevels
    ensures Text(c)[k] == Line(c[ChannelOfBlock(k / NumLevels)][k % NumLevels])
  {
  }

  /** The counters that are `n` at level `level` of every channel and zero
      elsewhere. */
  function OneLevel(level: int, n: int): (c: seq<seq<int>>)
    ensures WellFormed(c)
  {
    seq(NumChannels, _ => seq(NumLevels, v => if v == level then n else 0))
  }

  /** The text of such counters: `n` on the lines of that level, 0 on the
      others. */
  lemma TextOfOneLevel(level: int, n: int)
    ensures forall k :: 0 <= k < NumLines ==>
              Text(OneLevel(level, n))[k] == if k % NumLevels == level then Line(n) else Line(0)
  {
    forall k | 0 <= k < NumLines
      ensures Text(OneLevel(level, n))[k] == if k % NumLevels == level then Line(n) else Line(0)
    {
      TextAt(OneLevel(level, n), k);
    }
  }

  lemma EmptyIsOneLevel()
    ensures Empty == OneLevel(0, 0)
  {
    forall ch | 0 <= ch < NumChannels
      ensures Empty[ch] == OneLevel(0, 0)[ch]
    {
    }
  }

  /** Two gray pixels of level `level` count twice at that level in every
      channel and nowhere else. */
  lemma GrayAddedTwice(level: byte)
    ensures var p := FromRgb(level, level, level);
            AddColorCounts(AddColorCounts(Empty, p), p) == OneLevel(level, 2)
  {
    var p := FromRgb(level, level, level);
    var twice := AddColorCounts(AddColorCounts(Empty, p), p);
    assert forall ch :: 0 <= ch < NumChannels ==> p.Channel(ch) == level;
    forall ch | 0 <= ch < NumChannels
      ensures twice[ch] == OneLevel(level, 2)[ch]
    {
    }
  }

  /** The default-construction test: all 768 lines read as 0. */
  method DefaultWriteExample() returns (lines: seq<string>)
    ensures |lines| == NumLines
    ensures forall k :: 0 <= k < NumLines ==> lines[k] == "0\n"
  {
    var h := new Histogram();
    lines := h.Write();
    EmptyIsOneLevel();
    TextOfOneLevel(0, 0);
    SmallLines();
  }

  /** Writes the histogram of a pixel added twice to a new histogram. */
  method AddColorTwice(p: Pixel) returns (lines: seq<string>)
    ensures lines == Text(AddColorCounts(AddColorCounts(Empty, p), p))
  {
    var h := new Histogram();
    AddTwice(h, p);
    lines := h.Write();
  }

  /** `add_color(p)` twice on the same histogram. */
  method AddTwice(h: Histogram, p: Pixel)
    requires h.Valid()
    modifies h.channels
    ensures h.Valid()
    ensures h.Counts() == AddColorCounts(AddColorCounts(old(h.Counts()), p), p)
  {
    h.AddColor(p);
    h.AddColor(p);
  }

  /** The `add_color` test: after adding the gray color (10, 10, 10) twice,
      lines 10, 266 and 522 read 2 and every other line reads 0. */
  method AddColorExample() returns (lines: seq<string>)
    ensures |lines| == NumLines
    ensures forall k :: 0 <= k < NumLines ==> lines[k] == if k % NumLevels == 10 then "2\n" else "0\n"
  {
    var level: byte := 10;
    lines := AddColorTwice(FromRgb(level, level, level));
    GrayAddedTwice(level);
    TextOfOneLevel(level, 2);
    SmallLines();
  }

  lemma SmallLines()
    ensures Line(0) == "0\n" && Line(2) == "2\n"
  {
    assert IntToString(0) == "0" && IntToString(2) == "2";
  }
}
