/** The parameterised PCL commands both encoders emit: `ESC`, a group of
    non-numeric characters such as `&y` or `*p`, a signed decimal value, and
    an upper-case terminator letter, written with `%d` (for example
    `ESC&u600D` for the print resolution). A reader for such command
    streams is the partner of the writer: what is written reads back as the
    commands it was written from. */
module Pcl {
  import opened Results
  import opened Decimal

  const Esc: char := '\U{1B}'

  datatype Command = Command(group: string, value: int, terminator: char)

  predicate IsUpper(c: char) {
    'A' <= c <= 'Z'
  }

  /** A character that may appear in a command group. */
  predicate GroupChar(c: char) {
    !IsDigit(c) && c != '-'
  }

  /** The group is non-empty and cannot be mistaken for the value, and the
      terminator is a letter. */
  predicate WellFormed(c: Command) {
    && |c.group| >= 1
    && (forall k :: 0 <= k < |c.group| ==> GroupChar(c.group[k]))
    && IsUpper(c.terminator)
  }

  /** The text of one command, as the `"\x1B&y%dA"`-style templates produce
      it. */
  function Render(c: Command): string {
    [Esc] + c.group + FormatInt(c.value) + [c.terminator]
  }

  function RenderAll(cs: seq<Command>): string {
    if cs == [] then [] else Render(cs[0]) + RenderAll(cs[1..])
  }

  /** The first position at or after i that does not hold a group
      character. */
  function GroupEnd(s: string, i: nat): (e: nat)
    requires i <= |s|
    ensures i <= e <= |s|
    ensures forall k :: i <= k < e ==> GroupChar(s[k])
    ensures e < |s| ==> !GroupChar(s[e])
    decreases |s| - i
  {
    if i == |s| || !GroupChar(s[i]) then i else GroupEnd(s, i + 1)
  }

  /** The first position at or after i that does not hold a digit. */
  function DigitsEnd(s: string, i: nat): (e: nat)
    requires i <= |s|
    ensures i <= e <= |s|
    ensures forall k :: i <= k < e ==> IsDigit(s[k])
    ensures e < |s| ==> !IsDigit(s[e])
    decreases |s| - i
  {
    if i == |s| || !IsDigit(s[i]) then i else DigitsEnd(s, i + 1)
  }

  /** The number the digits of s from i up to e denote. */
  function NumberAt(s: string, i: nat, e: nat): nat
    requires i <= e <= |s|
    requires forall k :: i <= k < e ==> IsDigit(s[k])
    decreases e
  {
    if e == i then 0 else NumberAt(s, i, e - 1) * 10 + DigitValue(s[e - 1])
  }

  /** Reads a signed decimal value starting at g, returning it with the
      position after its last digit. Only the `%d` spelling is accepted (no
      leading zero, no "-0"), so that reading and writing are inverse. */
  function ReadValue(s: string, g: nat): (r: Option<(int, nat)>)
    requires g <= |s|
    ensures r.Some? ==> g < r.value.1 <= |s|
    ensures r.Some? && r.value.1 < |s| ==> !IsDigit(s[r.value.1])
  {
    if g == |s| then None
    else
      var neg := s[g] == '-';
      var ds := if neg then g + 1 else g;
      var de := DigitsEnd(s, ds);
      if de == ds || ((de - ds > 1 || neg) && s[ds] == '0') then None
      else
        var magnitude := NumberAt(s, ds, de);
        var v := if neg then -(magnitude as int) else magnitude;
        Some((v, de))
  }

  /** Digits read by position are the digits of the slice. */
  lemma {:induction false} NumberAtSlice(s: string, i: nat, e: nat)
    requires i <= e <= |s|
    requires forall k :: i <= k < e ==> IsDigit(s[k])
    ensures AllDigits(s[i..e]) && NumberAt(s, i, e) == DigitsValue(s[i..e])
    decreases e
  {
    if e > i {
      NumberAtSlice(s, i, e - 1);
      assert s[i..e][..e - i - 1] == s[i..e - 1];
    }
  }

  /** Digits that do not start with a zero denote a positive number. */
  lemma {:induction false} LeadingDigitPositive(d: string)
    requires |d| >= 1 && AllDigits(d) && d[0] != '0'
    ensures DigitsValue(d) >= 1
    decreases |d|
  {
    if |d| > 1 {
      LeadingDigitPositive(d[..|d| - 1]);
    }
  }

  /** Digits without a superfluous leading zero are the shortest numeral of
      the number they denote. */
  lemma {:induction false} CanonicalDigits(d: string)
    requires |d| >= 1 && AllDigits(d) && (|d| == 1 || d[0] != '0')
    ensures NatToString(DigitsValue(d)) == d
    decreases |d|
  {
    var front, last := d[..|d| - 1], d[|d| - 1];
    var n := DigitsValue(d);
    assert n == DigitsValue(front) * 10 + DigitValue(last);
    if |d| == 1 {
      assert DigitsValue(front) == 0;
      assert NatToString(n) == [DigitChar(n)];
    } else {
      LeadingDigitPositive(front);
      CanonicalDigits(front);
      assert n / 10 == DigitsValue(front) && n % 10 == DigitValue(last);
      assert NatToString(n) == NatToString(n / 10) + [DigitChar(n % 10)];
      assert d == front + [last];
    }
  }

  /** What ReadValue accepts is the `%d` text of the value it returns. */
  lemma ReadValueSound(s: string, g: nat)
    requires g <= |s| && ReadValue(s, g).Some?
    ensures s[g..ReadValue(s, g).value.1] == FormatInt(ReadValue(s, g).value.0)
  {
    var v, de := ReadValue(s, g).value.0, ReadValue(s, g).value.1;
    var neg := s[g] == '-';
    var ds := if neg then g + 1 else g;
    assert DigitsEnd(s, ds) == de;
    var d := s[ds..de];
    NumberAtSlice(s, ds, de);
    assert d[0] == s[ds];
    CanonicalDigits(d);
    var m := DigitsValue(d);
    if neg {
      assert d != "0";
      if |d| == 1 {
        assert m == DigitValue(d[0]) && d[0] != '0';
      } else {
        LeadingDigitPositive(d);
      }
      assert FormatInt(v) == "-" + d;
      assert s[g..de] == [s[g]] + d;
    } else {
      assert FormatInt(v) == d;
    }
  }

  /** The digits from i run exactly to e when e is where they stop. */
  lemma DigitsEndAt(s: string, i: nat, e: nat)
    requires i <= e <= |s| && forall k :: i <= k < e ==> IsDigit(s[k])
    requires e < |s| ==> !IsDigit(s[e])
    ensures DigitsEnd(s, i) == e
  {
  }

  /** The `%d` text of v, followed by anything but a digit, reads back as v. */
  lemma ReadFormat(s: string, g: nat, v: int)
    requires g + |FormatInt(v)| <= |s| && s[g..g + |FormatInt(v)|] == FormatInt(v)
    requires g + |FormatInt(v)| < |s| ==> !IsDigit(s[g + |FormatInt(v)|])
    ensures ReadValue(s, g) == Some((v, g + |FormatInt(v)|))
  {
    var ds, de := if v < 0 then g + 1 else g, g + |FormatInt(v)|;
    FormatDigits(s, g, v);
    ReadValueAt(s, g, ds, de);
  }

  /** Where the `%d` text of v sits in s: its sign, then digits without a
      superfluous zero that denote the magnitude. */
  lemma FormatDigits(s: string, g: nat, v: int)
    requires g + |FormatInt(v)| <= |s| && s[g..g + |FormatInt(v)|] == FormatInt(v)
    ensures var ds, de := if v < 0 then g + 1 else g, g + |FormatInt(v)|;
      && g < |s| && (s[g] == '-' <==> v < 0) && ds < de
      && (forall k :: ds <= k < de ==> IsDigit(s[k]))
      && !((de - ds > 1 || s[g] == '-') && s[ds] == '0')
    ensures v < 0 ==> NumberAt(s, g + 1, g + |FormatInt(v)|) == -v
    ensures v >= 0 ==> NumberAt(s, g, g + |FormatInt(v)|) == v
  {
    var f := FormatInt(v);
    var de := g + |f|;
    assert s[g] == s[g..de][0] == f[0];
    if v < 0 {
      var digits := NatToString(-v);
      assert f == "-" + digits;
      SliceOfJoined(s, g, de, "-", digits);
      NumberAtDigits(s, g + 1, de, -v);
      assert digits != "0" by {
        NatToStringValue(-v);
      }
    } else {
      NumberAtDigits(s, g, de, v);
    }
  }

  /** The numeral of m, found in s from i up to e, is digits that read as
      m. */
  lemma NumberAtDigits(s: string, i: nat, e: nat, m: nat)
    requires i <= e <= |s| && s[i..e] == NatToString(m)
    ensures i < e && forall k :: i <= k < e ==> IsDigit(s[k])
    ensures NumberAt(s, i, e) == m
    ensures s[i] == NatToString(m)[0]
  {
    var d := NatToString(m);
    SliceDigits(s, i, e, d);
    NumberAtSlice(s, i, e);
    NatToStringValue(m);
    assert s[i..e][0] == s[i];
  }

  lemma SliceOfJoined(s: string, i: nat, e: nat, a: string, b: string)
    requires i <= e <= |s| && s[i..e] == a + b
    ensures s[i + |a|..e] == b
  {
    assert s[i + |a|..e] == s[i..e][|a|..];
  }

  lemma SliceDigits(s: string, i: nat, e: nat, d: string)
    requires i <= e <= |s| && s[i..e] == d && AllDigits(d)
    ensures forall k :: i <= k < e ==> IsDigit(s[k])
  {
    forall k | i <= k < e
      ensures IsDigit(s[k])
    {
      assert s[i..e][k - i] == s[k];
    }
  }

  /** Digits from ds to de, with the sign ahead of them and no superfluous
      zero, read back as their value. */
  lemma ReadValueAt(s: string, g: nat, ds: nat, de: nat)
    requires g < |s| && ds == (if s[g] == '-' then g + 1 else g) && ds < de <= |s|
    requires forall k :: ds <= k < de ==> IsDigit(s[k])
    requires de < |s| ==> !IsDigit(s[de])
    requires !((de - ds > 1 || s[g] == '-') && s[ds] == '0')
    ensures ReadValue(s, g) ==
      Some((if s[g] == '-' then -(NumberAt(s, ds, de) as int) else NumberAt(s, ds, de), de))
  {
    DigitsEndAt(s, ds, de);
  }

  /** Reads one command from the front of s, returning it with the number of
      characters it took. */
  function ParseCommand(s: string): (r: Option<(Command, nat)>)
    ensures r.Some? ==> 0 < r.value.1 <= |s|
  {
    if |s| < 1 || s[0] != Esc then None
    else
      var g := GroupEnd(s, 1);
      if g == 1 then None
      else
        var value := ReadValue(s, g);
        if value.None? then None
        else
          var v, de := value.value.0, value.value.1;
          if de >= |s| || !IsUpper(s[de]) then None
          else Some((Command(s[1..g], v, s[de]), de + 1))
  }

  /** A command ParseCommand accepts is well formed, and the characters it
      took are that command's text. */
  lemma ParseCommandSound(s: string)
    requires ParseCommand(s).Some?
    ensures WellFormed(ParseCommand(s).value.0)
    ensures s[..ParseCommand(s).value.1] == Render(ParseCommand(s).value.0)
  {
    var g := GroupEnd(s, 1);
    var de := ReadValue(s, g).value.1;
    ReadValueSound(s, g);
    assert s[..de + 1] == [Esc] + s[1..g] + s[g..de] + [s[de]];
  }

  /** Reads a whole stream of commands; any other text is rejected. */
  function ParseAll(s: string): (r: Option<seq<Command>>)
    ensures r.Some? && s != [] ==> |r.value| >= 1
    decreases |s|
  {
    if s == [] then Some([])
    else
      var p := ParseCommand(s);
      if p.None? then None
      else
        var c, n := p.value.0, p.value.1;
        var rest := ParseAll(s[n..]);
        if rest.None? then None else Some([c] + rest.value)
  }

  /** What ParseAll accepts is the text of well-formed commands it returns:
      with `ParseRenderAll`, the reader accepts exactly the streams the
      writer can produce. */
  lemma {:induction false} ParseAllSound(s: string)
    requires ParseAll(s).Some?
    ensures RenderAll(ParseAll(s).value) == s
    ensures forall k :: 0 <= k < |ParseAll(s).value| ==> WellFormed(ParseAll(s).value[k])
    decreases |s|
  {
    if s != [] {
      ParseAllCons(s);
      var c, n := ParseCommand(s).value.0, ParseCommand(s).value.1;
      var tail := ParseAll(s[n..]).value;
      ParseCommandSound(s);
      ParseAllSound(s[n..]);
      RenderCons(s, n, c, tail);
      assert forall k :: 0 <= k < |[c] + tail| ==> WellFormed(([c] + tail)[k]) by {
        forall k | 0 <= k < |[c] + tail|
          ensures WellFormed(([c] + tail)[k])
        {
          if k > 0 {
            assert ([c] + tail)[k] == tail[k - 1];
          }
        }
      }
    }
  }

  /** One step of ParseAll on a non-empty stream it accepts. */
  lemma ParseAllCons(s: string)
    requires s != [] && ParseAll(s).Some?
    ensures ParseCommand(s).Some?
    ensures var n := ParseCommand(s).value.1;
      ParseAll(s[n..]).Some? && ParseAll(s).value == [ParseCommand(s).value.0] + ParseAll(s[n..]).value
  {
  }

  /** A command text in front of the text of the rest renders the whole. */
  lemma RenderCons(s: string, n: nat, c: Command, tail: seq<Command>)
    requires n <= |s| && s[..n] == Render(c) && RenderAll(tail) == s[n..]
    ensures RenderAll([c] + tail) == s
  {
    RenderAllCons(c, tail);
    assert s == s[..n] + s[n..];
  }

  /** A well-formed command reads back from the front of its text, whatever
      follows it. */
  lemma ParseRender(c: Command, rest: string)
    requires WellFormed(c)
    ensures ParseCommand(Render(c) + rest) == Some((c, |Render(c)|))
  {
    var s := Render(c) + rest;
    var f := FormatInt(c.value);
    var g := 1 + |c.group|;
    var de := g + |f|;
    assert s[1..g] == c.group by {
      forall k | 0 <= k < |c.group|
        ensures s[1 + k] == c.group[k]
      {
      }
    }
    assert s[g..de] == f by {
      forall k | 0 <= k < |f|
        ensures s[g + k] == f[k]
      {
      }
    }
    assert s[de] == c.terminator;
    assert !GroupChar(s[g]) by {
      assert s[g] == f[0];
    }
    assert GroupEnd(s, 1) == g;
    ReadFormat(s, g, c.value);
  }

  /** A stream of well-formed commands reads back as those commands: with
      the soundness of `ParseAll`, the reader accepts exactly the streams the
      writer can produce. */
  lemma {:induction false} ParseRenderAll(cs: seq<Command>)
    requires forall k :: 0 <= k < |cs| ==> WellFormed(cs[k])
    ensures ParseAll(RenderAll(cs)) == Some(cs)
  {
    if cs != [] {
      ParseRenderAll(cs[1..]);
      ParseUnit(cs[0], RenderAll(cs[1..]), cs[1..]);
      assert RenderAll(cs) == Render(cs[0]) + RenderAll(cs[1..]);
      assert [cs[0]] + cs[1..] == cs;
    }
  }

  /** A well-formed command in front of a stream that reads back reads back
      in front of it. */
  lemma ParseUnit(c: Command, rest: string, tail: seq<Command>)
    requires WellFormed(c) && ParseAll(rest) == Some(tail)
    ensures ParseAll(Render(c) + rest) == Some([c] + tail)
  {
    var s := Render(c) + rest;
    ParseRender(c, rest);
    assert s[|Render(c)|..] == rest;
  }

  lemma RenderAllCons(c: Command, cs: seq<Command>)
    ensures RenderAll([c] + cs) == Render(c) + RenderAll(cs)
  {
    assert ([c] + cs)[1..] == cs;
  }
}
