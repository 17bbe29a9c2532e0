/** A PCL stream cut into units: a parameterised command, a command that
    announces data (`ESC*b#W`, "transfer # bytes of raster data") together
    with that data, or the value-less `ESC*rC` that ends a raster. The lexer
    is the partner of the units' text: what is written as units lexes back
    as those units. */
module PclStream {
  import opened Results
  import opened Text
  import opened Decimal
  import opened Pcl

  /** `ESC*rC`, end raster graphics. */
  const EndRaster: string := [Esc] + "*rC"

  datatype Unit = Plain(c: Command) | WithData(c: Command, data: string) | EndMark

  /** Whether the command announces the data that follows it. */
  predicate Announces(c: Command) {
    c.group == "*b" && c.terminator == 'W'
  }

  function UnitText(u: Unit): string {
    match u
    case Plain(c) => Render(c)
    case WithData(c, data) => Render(c) + data
    case EndMark => EndRaster
  }

  function UnitsText(us: seq<Unit>): string {
    Emit(us, UnitText)
  }

  /** Whether s begins with `ESC*rC`. */
  predicate AtEnd(s: string) {
    |s| >= |EndRaster| && s[..|EndRaster|] == EndRaster
  }

  /** Units that lex back as themselves: a well-formed command of the
      two-character groups PCL uses (a parameterised character and a group
      character), carrying data exactly when it announces it, and as much
      data as it announces. */
  predicate Lexable(u: Unit) {
    match u
    case Plain(c) => WellFormed(c) && |c.group| == 2 && !Announces(c)
    case WithData(c, data) => WellFormed(c) && |c.group| == 2 && Announces(c) && c.value == |data|
    case EndMark => true
  }

  /** The unit s begins with, and how many characters its text takes: the
      end of a raster, a command announcing data together with that data,
      or a plain command. */
  function Step(s: string): (r: Option<(Unit, nat)>)
    ensures r.Some? ==> 0 < r.value.1 <= |s|
  {
    if AtEnd(s) then Some((EndMark, |EndRaster|))
    else
      var p := ParseCommand(s);
      if p.None? then None
      else
        var c, n := p.value.0, p.value.1;
        if Announces(c) then
          if c.value < 0 || n + c.value > |s| then None
          else Some((WithData(c, s[n..n + c.value]), n + c.value))
        else Some((Plain(c), n))
  }

  /** Cuts the whole of s into units; text that is none of them is
      rejected. */
  function Lex(s: string): (r: Option<seq<Unit>>)
    ensures r.Some? && s != [] ==> |r.value| >= 1
    decreases |s|
  {
    if s == [] then Some([])
    else
      var step := Step(s);
      if step.None? then None
      else
        var rest := Lex(s[step.value.1..]);
        if rest.None? then None else Some([step.value.0] + rest.value)
  }

  /** The text of units, one more unit in front. */
  lemma UnitsTextCons(u: Unit, us: seq<Unit>)
    ensures UnitsText([u] + us) == UnitText(u) + UnitsText(us)
  {
    assert ([u] + us)[1..] == us;
  }

  /** A unit is read from exactly its text. */
  lemma StepSound(s: string)
    requires Step(s).Some?
    ensures s[..Step(s).value.1] == UnitText(Step(s).value.0)
  {
    if !AtEnd(s) {
      ParseCommandSound(s);
      var c, n := ParseCommand(s).value.0, ParseCommand(s).value.1;
      if Announces(c) {
        assert s[..n + c.value] == s[..n] + s[n..n + c.value];
      }
    }
  }

  /** What Lex accepts is the text of the units it returns: with
      `LexUnits`, the lexer accepts exactly the texts of units. */
  lemma {:induction false} LexSound(s: string)
    requires Lex(s).Some?
    ensures UnitsText(Lex(s).value) == s
    decreases |s|
  {
    if s != [] {
      LexCons(s);
      var u, k := Step(s).value.0, Step(s).value.1;
      var rest := s[k..];
      LexSound(rest);
      StepSound(s);
      TextCons(s, k, u, Lex(rest).value);
    }
  }

  /** Lex of non-empty text: the first unit, then the lexed rest. */
  lemma LexCons(s: string)
    requires s != [] && Lex(s).Some?
    ensures Step(s).Some? && Lex(s[Step(s).value.1..]).Some?
    ensures Lex(s).value == [Step(s).value.0] + Lex(s[Step(s).value.1..]).value
  {
  }

  lemma TextCons(s: string, k: nat, u: Unit, tail: seq<Unit>)
    requires k <= |s| && s[..k] == UnitText(u) && UnitsText(tail) == s[k..]
    ensures UnitsText([u] + tail) == s
  {
    UnitsTextCons(u, tail);
    assert s == s[..k] + s[k..];
  }

  /** Lexable units lex back as themselves. */
  lemma {:induction false} LexUnits(us: seq<Unit>)
    requires forall k :: 0 <= k < |us| ==> Lexable(us[k])
    ensures Lex(UnitsText(us)) == Some(us)
  {
    if us != [] {
      LexUnits(us[1..]);
      UnitsTextCons(us[0], us[1..]);
      assert [us[0]] + us[1..] == us;
      LexUnit(us[0], UnitsText(us[1..]), us[1..]);
    }
  }

  /** A command of a two-character group never begins like `ESC*rC`: its
      fourth character starts the value. */
  lemma CommandIsNotEnd(c: Command, rest: string)
    requires WellFormed(c) && |c.group| == 2
    ensures !AtEnd(Render(c) + rest)
  {
    var s := Render(c) + rest;
    var f := FormatInt(c.value);
    assert s[3] == f[0];
    assert EndRaster[3] == 'C';
  }

  /** A lexable unit's text, whatever follows, is read as that unit. */
  lemma StepUnit(u: Unit, rest: string)
    requires Lexable(u)
    ensures Step(UnitText(u) + rest) == Some((u, |UnitText(u)|))
  {
    match u
    case Plain(c) =>
      CommandIsNotEnd(c, rest);
      ParseRender(c, rest);
    case WithData(c, data) =>
      var head := Render(c);
      var s := head + data + rest;
      Assoc(head, data, rest);
      CommandIsNotEnd(c, data + rest);
      ParseRender(c, data + rest);
      AppendSlices(head, data + rest);
      AppendSlices(data, rest);
      assert s[|head|..|head| + |data|] == data;
    case EndMark =>
      AppendSlices(EndRaster, rest);
  }

  lemma LexUnit(u: Unit, rest: string, tail: seq<Unit>)
    requires Lexable(u) && Lex(rest) == Some(tail)
    ensures Lex(UnitText(u) + rest) == Some([u] + tail)
  {
    StepUnit(u, rest);
    AppendSlices(UnitText(u), rest);
  }
}
