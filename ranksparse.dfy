/** Reading `ranks.txt` back, as the line loop of `analyze_rank_differences`
    (`scripts/.ipynb_checkpoints/analyze-checkpoint.py`, lines 21-43) does: every line that
    contains a label has the text after its last ':' stripped and passed to `int`; a value
    that parses replaces the field, one that does not leaves it and adds a warning. */
module RanksParse {
  import opened Wrappers
  import opened RanksFile

  // ---------------------------------------------------------------------------------------
  // The string operations the parser uses

  /** `pat` occurs in `s` at index `i`. */
  predicate OccursAt(s: string, pat: string, i: int) {
    0 <= i <= |s| - |pat| && s[i..i + |pat|] == pat
  }

  /** `pat in s` for strings, scanning `s` from the left. */
  predicate Contains(s: string, pat: string) {
    (|pat| <= |s| && s[..|pat|] == pat) || (s != [] && Contains(s[1..], pat))
  }

  /** The scan finds `pat` exactly when it occurs somewhere in `s`. */
  lemma {:induction false} ContainsIffOccurs(s: string, pat: string)
    ensures Contains(s, pat) <==> exists i :: OccursAt(s, pat, i)
  {
    if |pat| <= |s| && s[..|pat|] == pat {
      assert OccursAt(s, pat, 0);
    } else if s != [] {
      ContainsIffOccurs(s[1..], pat);
      if exists i :: OccursAt(s[1..], pat, i) {
        var i :| OccursAt(s[1..], pat, i);
        assert s[i + 1..i + 1 + |pat|] == s[1..][i..i + |pat|];
        assert OccursAt(s, pat, i + 1);
      }
      if exists i :: OccursAt(s, pat, i) {
        var i :| OccursAt(s, pat, i);
        assert i != 0;
        assert s[1..][i - 1..i - 1 + |pat|] == s[i..i + |pat|];
        assert OccursAt(s[1..], pat, i - 1);
      }
    }
  }

  /** `s.split(":")[-1]`: the text after the last ':', or all of `s` when there is none. */
  function AfterLastColon(s: string): string {
    if s == [] then []
    else if s[|s| - 1] == ':' then []
    else AfterLastColon(s[..|s| - 1]) + [s[|s| - 1]]
  }

  /** The piece after the last ':' is the colon-free end of `s`, preceded by a ':' unless it
      is all of `s`. */
  lemma {:induction false} AfterLastColonSpec(s: string)
    ensures var r := AfterLastColon(s);
            && |r| <= |s| && r == s[|s| - |r|..]
            && (forall j :: 0 <= j < |r| ==> r[j] != ':')
            && (|r| < |s| ==> s[|s| - |r| - 1] == ':')
  {
    if s != [] && s[|s| - 1] != ':' {
      AfterLastColonSpec(s[..|s| - 1]);
    }
  }

  /** A ':' and then colon-free text: the piece after the last ':' is that text. */
  lemma {:induction false} AfterColon(p: string, q: string)
    requires forall j :: 0 <= j < |q| ==> q[j] != ':'
    ensures AfterLastColon(p + ":" + q) == q
  {
    var s := p + ":" + q;
    AfterLastColonSpec(s);
    assert s[|s| - |q|..] == q;
    assert s[|s| - |q| - 1] == ':';
  }

  /** The characters Python's `str.isspace` accepts, which `str.strip()` removes. */
  predicate IsSpace(c: char) {
    || ('\t' <= c <= '\r') || ('\U{001C}' <= c <= ' ')
    || c == '\U{0085}' || c == '\U{00A0}' || c == '\U{1680}'
    || ('\U{2000}' <= c <= '\U{200A}') || c == '\U{2028}' || c == '\U{2029}'
    || c == '\U{202F}' || c == '\U{205F}' || c == '\U{3000}'
  }

  function StripLeft(s: string): string {
    if s != [] && IsSpace(s[0]) then StripLeft(s[1..]) else s
  }

  function StripRight(s: string): string {
    if s != [] && IsSpace(s[|s| - 1]) then StripRight(s[..|s| - 1]) else s
  }

  /** `s.strip()`: `s` without its leading and trailing whitespace. */
  function Strip(s: string): string {
    StripRight(StripLeft(s))
  }

  lemma {:induction false} StripLeftSpec(s: string)
    ensures var r := StripLeft(s);
            && |r| <= |s| && r == s[|s| - |r|..]
            && (forall j :: 0 <= j < |s| - |r| ==> IsSpace(s[j]))
            && (r == [] || !IsSpace(r[0]))
  {
    if s != [] && IsSpace(s[0]) {
      var t := s[1..];
      StripLeftSpec(t);
      var r := StripLeft(t);
      assert StripLeft(s) == r;
      assert t[|t| - |r|..] == s[|s| - |r|..];
      forall j | 0 <= j < |s| - |r| ensures IsSpace(s[j]) {
        if j > 0 {
          assert s[j] == t[j - 1];
        }
      }
    }
  }

  lemma {:induction false} StripRightSpec(s: string)
    ensures var r := StripRight(s);
            && |r| <= |s| && r == s[..|r|]
            && (forall j :: |r| <= j < |s| ==> IsSpace(s[j]))
            && (r == [] || !IsSpace(r[|r| - 1]))
  {
    if s != [] && IsSpace(s[|s| - 1]) {
      StripRightSpec(s[..|s| - 1]);
    }
  }

  /** What `strip` removes is whitespace at either end: the result is the slice of `s`
      between its leading and its trailing whitespace, and it neither starts nor ends with
      whitespace. */
  lemma StripIsSlice(s: string)
    ensures var r := Strip(s);
            && (r == [] || (!IsSpace(r[0]) && !IsSpace(r[|r| - 1])))
            && exists i :: OccursAt(s, r, i) &&
                 (forall j :: 0 <= j < i ==> IsSpace(s[j])) &&
                 (forall j :: i + |r| <= j < |s| ==> IsSpace(s[j]))
  {
    var l := StripLeft(s);
    StripLeftSpec(s);
    StripRightSpec(l);
    var r := StripRight(l);
    assert OccursAt(s, r, |s| - |l|);
  }

  /** One space, then text that starts and ends with a non-space, then a newline: `strip`
      gives the text back. */
  lemma StripPadded(x: string)
    requires x != [] && !IsSpace(x[0]) && !IsSpace(x[|x| - 1])
    ensures Strip(" " + x + "\n") == x
  {
    var s := " " + x + "\n";
    assert s[1..] == x + "\n";
    assert StripLeft(s) == StripLeft(x + "\n") == x + "\n";
    assert (x + "\n")[..|x|] == x;
    assert StripRight(x + "\n") == StripRight(x) == x;
  }

  // ---------------------------------------------------------------------------------------
  // `int` on a stripped string

  predicate IsDigit(c: char) {
    '0' <= c <= '9'
  }

  /** Decimal digits, optionally grouped by single underscores between digits, as `int`
      accepts them, read from the right. */
  predicate ValidDigits(t: string) {
    if |t| <= 1 then |t| == 1 && IsDigit(t[0])
    else
      && IsDigit(t[|t| - 1])
      && (if t[|t| - 2] == '_' then |t| >= 3 && ValidDigits(t[..|t| - 2])
          else ValidDigits(t[..|t| - 1]))
  }

  /** The same grammar stated position by position: digits and underscores only, a digit at
      both ends, and a digit after every underscore. */
  lemma {:induction false} ValidDigitsIff(t: string)
    ensures ValidDigits(t) <==>
            && |t| >= 1 && IsDigit(t[0]) && IsDigit(t[|t| - 1])
            && (forall i :: 0 <= i < |t| ==> IsDigit(t[i]) || t[i] == '_')
            && (forall i :: 0 <= i < |t| - 1 ==> t[i] == '_' ==> IsDigit(t[i + 1]))
    decreases |t|
  {
    if |t| >= 2 {
      var n := |t|;
      if t[n - 2] == '_' {
        if n >= 3 {
          var u := t[..n - 2];
          ValidDigitsIff(u);
          forall i | 0 <= i < |u| ensures u[i] == t[i] { }
        }
      } else {
        var u := t[..n - 1];
        ValidDigitsIff(u);
        forall i | 0 <= i < |u| ensures u[i] == t[i] { }
      }
    }
  }

  /** The number the digits of `t` spell, underscores skipped. */
  function DecValue(t: string): nat {
    if t == [] then 0
    else if IsDigit(t[|t| - 1]) then DecValue(t[..|t| - 1]) * 10 + DigitValue(t[|t| - 1])
    else DecValue(t[..|t| - 1])
  }

  /** `int(s)` for a string without surrounding whitespace: an optional sign and then
      digits; anything else is a `ValueError`. */
  function ParseInt(s: string): Option<int> {
    if |s| >= 1 && (s[0] == '-' || s[0] == '+') then
      var t := s[1..];
      if !ValidDigits(t) then None
      else if s[0] == '-' then Some(0 - DecValue(t) as int)
      else Some(DecValue(t))
    else if ValidDigits(s) then Some(DecValue(s))
    else None
  }

  /** `int` accepts an optional sign followed by a digit group, and nothing else; in
      particular every plain run of digits parses. */
  lemma ParseIntShape(s: string)
    ensures ParseInt(s).Some? <==>
            if |s| >= 1 && (s[0] == '-' || s[0] == '+') then ValidDigits(s[1..]) else ValidDigits(s)
    ensures ParseInt(s).Some? ==> |s| >= 1 && IsDigit(s[|s| - 1])
    ensures (|s| >= 1 && forall j :: 0 <= j < |s| ==> IsDigit(s[j])) ==> ParseInt(s).Some?
  {
    ValidDigitsIff(s);
    if |s| >= 1 {
      ValidDigitsIff(s[1..]);
    }
  }

  lemma {:induction false} NatToStringValue(k: nat)
    ensures ValidDigits(NatToString(k)) && DecValue(NatToString(k)) == k
  {
    var s := NatToString(k);
    if k < 10 {
      DigitRoundTrip(k);
    } else {
      NatToStringValue(k / 10);
      DigitRoundTrip(k % 10);
      assert s[..|s| - 1] == NatToString(k / 10);
    }
  }

  lemma ParseNegative(t: string, k: nat)
    requires ValidDigits(t) && DecValue(t) == k
    ensures ParseInt("-" + t) == Some(-(k as int))
  {
    var s := "-" + t;
    assert s[0] == '-' && s[1..] == t;
  }

  /** `int(str(i)) == i` for a non-negative `i`. */
  lemma NonNegativeRoundTrip(i: int)
    requires i >= 0
    ensures ParseInt(IntToString(i)) == Some(i)
  {
    NatToStringValue(i);
  }

  /** `int(str(i)) == i`. */
  lemma IntRoundTrip(i: int)
    ensures ParseInt(IntToString(i)) == Some(i)
  {
    if i < 0 {
      NatToStringValue(-i);
      calc {
        ParseInt(IntToString(i));
        ParseInt("-" + NatToString(-i));
        { ParseNegative(NatToString(-i), -i); }
        Some(i);
      }
    } else {
      NonNegativeRoundTrip(i);
    }
  }

  // ---------------------------------------------------------------------------------------
  // `f.readlines()`

  /** The length of the first line of `s`, its newline included. */
  function LineLength(s: string): (k: nat)
    requires s != []
    ensures 1 <= k <= |s|
    ensures forall j :: 0 <= j < k - 1 ==> s[j] != '\n'
    ensures k < |s| ==> s[k - 1] == '\n'
  {
    if s[0] == '\n' || |s| == 1 then 1 else 1 + LineLength(s[1..])
  }

  /** The lines of a text, each with its terminating newline; a last line without one is
      kept as it is. */
  function SplitLines(s: string): seq<string>
    decreases |s|
  {
    if s == [] then [] else [s[..LineLength(s)]] + SplitLines(s[LineLength(s)..])
  }

  lemma SplitLinesCons(x: string, rest: string)
    requires forall j :: 0 <= j < |x| ==> x[j] != '\n'
    ensures SplitLines(x + "\n" + rest) == [x + "\n"] + SplitLines(rest)
  {
    var s := x + "\n" + rest;
    assert s[|x|] == '\n';
    var k := LineLength(s);
    assert k == |x| + 1;
    assert s[..k] == x + "\n" && s[k..] == rest;
  }

  // ---------------------------------------------------------------------------------------
  // The three fields

  datatype Field = InitialField | FinalField | DiffField

  function Label(which: Field): string {
    match which
    case InitialField => "Initial rank:"
    case FinalField => "Final rank:"
    case DiffField => "Rank diff:"
  }

  /** `initial_rank`, `final_rank` and `rank_diff` as the loop leaves them, and the fields
      whose warning was printed, in order. */
  datatype Fields = Fields(initial: Option<int>, final: Option<int>, diff: Option<int>,
                           warnings: seq<Field>)

  function Get(f: Fields, which: Field): Option<int> {
    match which
    case InitialField => f.initial
    case FinalField => f.final
    case DiffField => f.diff
  }

  /** What `int(line.split(":")[-1].strip())` gives for a line that carries the label. */
  function ValueOf(line: string): Option<int> {
    ParseInt(Strip(AfterLastColon(line)))
  }

  /** What one line says about one field. */
  datatype Seen =
    | Absent              // the line does not carry the field's label
    | Parsed(value: int)  // it does, and the value after the last ':' parses
    | Unparsable          // it does, the value does not parse, and a warning is printed

  function Sight(line: string, which: Field): Seen {
    if !Contains(line, Label(which)) then Absent
    else
      match ValueOf(line)
      case None => Unparsable
      case Some(v) => Parsed(v)
  }

  /** What one line says about each of the three fields, in the order the blocks test them. */
  datatype Reading = Reading(initial: Seen, final: Seen, diff: Seen)

  function Read(line: string): Reading {
    Reading(Sight(line, InitialField), Sight(line, FinalField), Sight(line, DiffField))
  }

  function Pick(r: Reading, which: Field): Seen {
    match which
    case InitialField => r.initial
    case FinalField => r.final
    case DiffField => r.diff
  }

  /** One of the three `if` blocks of lines 29-43, given what the line says about its field. */
  function Absorb(f: Fields, which: Field, s: Seen): Fields {
    match s
    case Absent => f
    case Unparsable => f.(warnings := f.warnings + [which])
    case Parsed(v) =>
      match which
      case InitialField => f.(initial := Some(v))
      case FinalField => f.(final := Some(v))
      case DiffField => f.(diff := Some(v))
  }

  /** A block sets its own field to the line's value when there is one, leaves the other
      two fields alone, and adds a warning exactly when the value does not parse. */
  lemma AbsorbEffect(f: Fields, which: Field, s: Seen)
    ensures forall w :: w != which ==> Get(Absorb(f, which, s), w) == Get(f, w)
    ensures Get(Absorb(f, which, s), which) == if s.Parsed? then Some(s.value) else Get(f, which)
    ensures Absorb(f, which, s).warnings == f.warnings + (if s.Unparsable? then [which] else [])
  {
  }

  /** The body of `for line in lines`, lines 29-43. */
  function ParseLine(f: Fields, r: Reading): Fields {
    Absorb(Absorb(Absorb(f, InitialField, r.initial), FinalField, r.final), DiffField, r.diff)
  }

  /** The three fields after the loop has seen the readings `rs`, starting from `None` each. */
  function Collect(rs: seq<Reading>): Fields {
    if rs == [] then Fields(None, None, None, [])
    else ParseLine(Collect(rs[..|rs| - 1]), rs[|rs| - 1])
  }

  function ReadAll(lines: seq<string>): (rs: seq<Reading>)
    ensures |rs| == |lines| && forall i :: 0 <= i < |lines| ==> rs[i] == Read(lines[i])
  {
    seq(|lines|, i requires 0 <= i < |lines| => Read(lines[i]))
  }

  /** The three fields after the loop over `lines`, starting from `None` each. */
  function ParseLines(lines: seq<string>): Fields {
    if lines == [] then Fields(None, None, None, [])
    else ParseLine(ParseLines(lines[..|lines| - 1]), Read(lines[|lines| - 1]))
  }

  /** The loop over the lines is the loop over what each line says. */
  lemma {:induction false} ParseLinesCollect(lines: seq<string>)
    ensures ParseLines(lines) == Collect(ReadAll(lines))
  {
    if lines != [] {
      var init := lines[..|lines| - 1];
      ParseLinesCollect(init);
      assert ReadAll(lines)[..|lines| - 1] == ReadAll(init);
    }
  }

  /** Lines 24-43 as the loop they are. */
  method ParseRanksFile(lines: seq<string>) returns (f: Fields)
    ensures f == ParseLines(lines)
  {
    f := Fields(None, None, None, []);
    for i := 0 to |lines|
      invariant f == ParseLines(lines[..i])
    {
      assert lines[..i + 1][..i] == lines[..i];
      f := ParseLine(f, Read(lines[i]));
    }
    assert lines[..|lines|] == lines;
  }

  /** The warning printed for a value that does not parse, as lines 33, 38 and 43 word it: the
      final-rank block reuses the initial-rank message. */
  function WarningAsWritten(which: Field, file: string): string {
    match which
    case InitialField => "Warning: Could not parse initial rank in " + file
    case FinalField => "Warning: Could not parse initial rank in " + file
    case DiffField => "Warning: Could not parse rank difference in " + file
  }

  /** A final rank that does not parse is reported as an initial rank that does not. */
  lemma FinalWarningSaysInitial(file: string)
    ensures WarningAsWritten(FinalField, file) == WarningAsWritten(InitialField, file)
  {
  }

  /** The warning with each block naming its own field. */
  function Warning(which: Field, file: string): string {
    "Warning: Could not parse " + FieldName(which) + " in " + file
  }

  function FieldName(which: Field): string {
    match which
    case InitialField => "initial rank"
    case FinalField => "final rank"
    case DiffField => "rank difference"
  }

  /** Each field's warning tells which field failed. */
  lemma WarningNamesField(w1: Field, w2: Field, file: string)
    ensures Warning(w1, file) == Warning(w2, file) <==> w1 == w2
  {
    if Warning(w1, file) == Warning(w2, file) {
      assert Warning(w1, file)[25] == FieldName(w1)[0];
      assert Warning(w2, file)[25] == FieldName(w2)[0];
    }
  }

  /** The messages the loop over `lines` prints for `file`, in order, as lines 33, 38 and 43
      word them. */
  function PrintedAsWritten(lines: seq<string>, file: string): seq<string> {
    var ws := ParseLines(lines).warnings;
    seq(|ws|, i requires 0 <= i < |ws| => WarningAsWritten(ws[i], file))
  }

  /** The same messages with each block naming its own field. */
  function Printed(lines: seq<string>, file: string): seq<string> {
    var ws := ParseLines(lines).warnings;
    seq(|ws|, i requires 0 <= i < |ws| => Warning(ws[i], file))
  }

  /** A final-rank line whose value is not a number. */
  const BadFinalLine := "Final rank: x\n"

  /** That line carries only the final-rank label ... */
  lemma BadFinalLabels()
    ensures Contains(BadFinalLine, Label(FinalField))
    ensures !Contains(BadFinalLine, Label(InitialField)) && !Contains(BadFinalLine, Label(DiffField))
  {
    assert BadFinalLine[..|Label(FinalField)|] == Label(FinalField);
    BadFinalColon();
    NotContains(BadFinalLine, Label(InitialField), 10);
    NotContains(BadFinalLine, Label(DiffField), 10);
  }

  lemma BadFinalColon()
    ensures forall j :: 0 <= j < |BadFinalLine| && BadFinalLine[j] == ':' ==> j == 10
  {
  }

  /** ... and its value does not parse. */
  lemma BadFinalValue()
    ensures ValueOf(BadFinalLine) == None
  {
    assert AfterLastColon(BadFinalLine) == " x\n" by {
      assert BadFinalLine == "Final rank" + ":" + " x\n";
      AfterColon("Final rank", " x\n");
    }
    assert Strip(" x\n") == "x" by {
      assert " x\n" == " " + "x" + "\n";
      StripPadded("x");
    }
    assert !ValidDigits("x");
  }

  lemma BadFinalReading()
    ensures Read(BadFinalLine) == Reading(Absent, Unparsable, Absent)
  {
    BadFinalLabels();
    BadFinalValue();
  }

  /** As written, `Final rank: x` makes the loop print the initial-rank message. */
  lemma BadFinalPrintedAsWritten(file: string)
    ensures PrintedAsWritten([BadFinalLine], file) == ["Warning: Could not parse initial rank in " + file]
  {
    BadFinalReading();
    assert [BadFinalLine][..0] == [];
    assert ParseLines([BadFinalLine]).warnings == [FinalField];
  }

  /** With each block naming its own field, the same line prints the final-rank message. */
  lemma BadFinalPrinted(file: string)
    ensures Printed([BadFinalLine], file) == ["Warning: Could not parse " + "final rank" + " in " + file]
  {
    BadFinalReading();
    assert [BadFinalLine][..0] == [];
    assert ParseLines([BadFinalLine]).warnings == [FinalField];
  }

  // ---------------------------------------------------------------------------------------
  // What the parse means

  /** One line sets each field to its value when it has one, and adds a warning for a field
      exactly when it carries the label with a value that does not parse. */
  lemma ParseLineEffect(f: Fields, r: Reading, which: Field)
    ensures Get(ParseLine(f, r), which) ==
            if Pick(r, which).Parsed? then Some(Pick(r, which).value) else Get(f, which)
    ensures which in ParseLine(f, r).warnings <==> which in f.warnings || Pick(r, which).Unparsable?
  {
    var f1 := Absorb(f, InitialField, r.initial);
    var f2 := Absorb(f1, FinalField, r.final);
    AbsorbEffect(f, InitialField, r.initial);
    AbsorbEffect(f1, FinalField, r.final);
    AbsorbEffect(f2, DiffField, r.diff);
  }

  lemma {:induction false} CollectSetIff(rs: seq<Reading>, which: Field)
    ensures Get(Collect(rs), which).Some? <==> exists i :: 0 <= i < |rs| && Pick(rs[i], which).Parsed?
  {
    if rs != [] {
      var init := rs[..|rs| - 1];
      CollectSetIff(init, which);
      ParseLineEffect(Collect(init), rs[|rs| - 1], which);
      forall i | 0 <= i < |init| ensures init[i] == rs[i] { }
    }
  }

  lemma {:induction false} CollectLastWins(rs: seq<Reading>, which: Field, i: nat)
    requires i < |rs| && Pick(rs[i], which).Parsed?
    requires forall j :: i < j < |rs| ==> !Pick(rs[j], which).Parsed?
    ensures Get(Collect(rs), which) == Some(Pick(rs[i], which).value)
    decreases |rs|
  {
    var init := rs[..|rs| - 1];
    ParseLineEffect(Collect(init), rs[|rs| - 1], which);
    if i < |rs| - 1 {
      assert init[i] == rs[i];
      forall j | i < j < |init| ensures !Pick(init[j], which).Parsed? {
        assert init[j] == rs[j];
      }
      CollectLastWins(init, which, i);
    }
  }

  lemma {:induction false} CollectWarnings(rs: seq<Reading>, which: Field)
    ensures which in Collect(rs).warnings <==>
            exists i :: 0 <= i < |rs| && Pick(rs[i], which).Unparsable?
  {
    if rs != [] {
      var init := rs[..|rs| - 1];
      CollectWarnings(init, which);
      ParseLineEffect(Collect(init), rs[|rs| - 1], which);
      forall i | 0 <= i < |init| ensures init[i] == rs[i] { }
    }
  }

  /** A field is set exactly when some line carries its label with a value that parses. */
  lemma FieldSetIff(lines: seq<string>, which: Field)
    ensures Get(ParseLines(lines), which).Some? <==>
            exists i :: 0 <= i < |lines| && Sight(lines[i], which).Parsed?
  {
    var rs := ReadAll(lines);
    ParseLinesCollect(lines);
    CollectSetIff(rs, which);
    forall i | 0 <= i < |lines| ensures Pick(rs[i], which) == Sight(lines[i], which) { }
  }

  /** A field holds the value of the last line that carries its label with a value that
      parses. */
  lemma LastValueWins(lines: seq<string>, which: Field, i: nat)
    requires i < |lines| && Sight(lines[i], which).Parsed?
    requires forall j :: i < j < |lines| ==> !Sight(lines[j], which).Parsed?
    ensures Get(ParseLines(lines), which) == Some(Sight(lines[i], which).value)
  {
    var rs := ReadAll(lines);
    ParseLinesCollect(lines);
    forall j | 0 <= j < |lines| ensures Pick(rs[j], which) == Sight(lines[j], which) { }
    CollectLastWins(rs, which, i);
  }

  /** A warning names a field exactly when some line carries its label with a value that
      does not parse. */
  lemma WarningsExplained(lines: seq<string>, which: Field)
    ensures which in ParseLines(lines).warnings <==>
            exists i :: 0 <= i < |lines| && Sight(lines[i], which).Unparsable?
  {
    var rs := ReadAll(lines);
    ParseLinesCollect(lines);
    CollectWarnings(rs, which);
    forall i | 0 <= i < |lines| ensures Pick(rs[i], which) == Sight(lines[i], which) { }
  }

  // ---------------------------------------------------------------------------------------
  // Reading back what `deconv` wrote

  /** When the only ':' of `s` is at `c`, a label ending in ':' occurs in `s` only as the
      slice that ends at `c`. */
  lemma NotContains(s: string, pat: string, c: int)
    requires pat != [] && pat[|pat| - 1] == ':'
    requires forall j :: 0 <= j < |s| && s[j] == ':' ==> j == c
    requires c < |pat| - 1 || c >= |s| || s[c - (|pat| - 1)] != pat[0]
    ensures !Contains(s, pat)
  {
    ContainsIffOccurs(s, pat);
  }

  /** The line `deconv` writes for a field: its label, a space, the number, a newline. */
  function LineOf(which: Field, v: int): string {
    WriteLine(Label(which) + " ", v)
  }

  /** Where the ':' of each label is. */
  function ColonAt(which: Field): nat {
    |Label(which)| - 1
  }

  /** A label whose only ':' ends it, a space, a number and a newline. */
  lemma WrittenShape(lab: string, x: string)
    requires lab != [] && lab[|lab| - 1] == ':'
    requires forall j :: 0 <= j < |lab| - 1 ==> lab[j] != ':'
    requires forall j :: 0 <= j < |lab| ==> lab[j] != '\n'
    requires forall j :: 0 <= j < |x| ==> x[j] != ':' && x[j] != '\n'
    ensures var line := lab + " " + x + "\n";
            && (forall j :: 0 <= j < |line| && line[j] == ':' ==> j == |lab| - 1)
            && (forall j :: 0 <= j < |line| - 1 ==> line[j] != '\n')
            && line[|line| - 1] == '\n'
  {
    var line := lab + " " + x + "\n";
    forall j | 0 <= j < |line| - 1
      ensures line[j] == if j < |lab| then lab[j] else if j == |lab| then ' ' else x[j - |lab| - 1]
    { }
  }

  lemma LineOfShape(which: Field, v: int)
    ensures var line := LineOf(which, v);
            && (forall j :: 0 <= j < |line| && line[j] == ':' ==> j == ColonAt(which))
            && (forall j :: 0 <= j < |line| - 1 ==> line[j] != '\n')
            && line[|line| - 1] == '\n'
  {
    var x := IntToString(v);
    assert LineOf(which, v) == Label(which) + " " + x + "\n";
    WrittenShape(Label(which), x);
  }

  /** The value after the ':' of a written line is the number written. */
  lemma ValueOfLine(which: Field, v: int)
    ensures ValueOf(LineOf(which, v)) == Some(v)
  {
    var line := LineOf(which, v);
    var lab := Label(which);
    var x := IntToString(v);
    var p := lab[..|lab| - 1];
    var q := " " + x + "\n";
    assert line == p + ":" + q by {
      assert lab == p + ":";
      assert line == lab + " " + x + "\n";
    }
    assert forall j :: 0 <= j < |q| ==> q[j] != ':' by {
      forall j | 0 <= j < |q| ensures q[j] != ':' {
        if 1 <= j < |q| - 1 { assert q[j] == x[j - 1]; }
      }
    }
    calc {
      ValueOf(line);
      ParseInt(Strip(AfterLastColon(p + ":" + q)));
      { AfterColon(p, q); }
      ParseInt(Strip(q));
      { StripPadded(x); }
      ParseInt(x);
      { IntRoundTrip(v); }
      Some(v);
    }
  }

  /** A line `deconv` wrote gives its own field the number written. */
  lemma ReadOwnField(which: Field, v: int)
    ensures Sight(LineOf(which, v), which) == Parsed(v)
  {
    var line := LineOf(which, v);
    assert line[..|Label(which)|] == Label(which);
    assert Contains(line, Label(which));
    ValueOfLine(which, v);
  }

  /** ... and says nothing about the other two. */
  lemma ReadOtherField(which: Field, w: Field, v: int)
    requires w != which
    ensures Sight(LineOf(which, v), w) == Absent
  {
    var line := LineOf(which, v);
    LineOfShape(which, v);
    var c := ColonAt(which);
    assert c < ColonAt(w) || line[c - ColonAt(w)] != Label(w)[0];
    NotContains(line, Label(w), c);
  }

  lemma ReadLineOf(which: Field, v: int)
    ensures Read(LineOf(which, v)) ==
            match which
            case InitialField => Reading(Parsed(v), Absent, Absent)
            case FinalField => Reading(Absent, Parsed(v), Absent)
            case DiffField => Reading(Absent, Absent, Parsed(v))
  {
    ReadOwnField(which, v);
    forall w | w != which ensures Sight(LineOf(which, v), w) == Absent {
      ReadOtherField(which, w, v);
    }
  }

  lemma SplitLinesOf(which: Field, v: int, rest: string)
    ensures SplitLines(LineOf(which, v) + rest) == [LineOf(which, v)] + SplitLines(rest)
  {
    var line := LineOf(which, v);
    LineOfShape(which, v);
    var x := line[..|line| - 1];
    assert line == x + "\n";
    SplitLinesCons(x, rest);
  }

  /** `readlines` splits the written file into the three lines written. */
  lemma WrittenLines(r: RankRecord)
    ensures SplitLines(FormatRanks(r)) ==
            [LineOf(InitialField, r.initial), LineOf(FinalField, r.final), LineOf(DiffField, r.diff)]
  {
    var l1 := LineOf(InitialField, r.initial);
    var l2 := LineOf(FinalField, r.final);
    var l3 := LineOf(DiffField, r.diff);
    assert Label(InitialField) + " " == "Initial rank: ";
    assert Label(FinalField) + " " == "Final rank: ";
    assert Label(DiffField) + " " == "Rank diff: ";
    assert FormatRanks(r) == l1 + (l2 + (l3 + []));
    SplitLinesOf(DiffField, r.diff, []);
    SplitLinesOf(FinalField, r.final, l3 + []);
    SplitLinesOf(InitialField, r.initial, l2 + (l3 + []));
  }

  lemma ParseWritten(r: RankRecord)
    ensures ParseLines([LineOf(InitialField, r.initial), LineOf(FinalField, r.final),
                        LineOf(DiffField, r.diff)]) ==
            Fields(Some(r.initial), Some(r.final), Some(r.diff), [])
  {
    var l1 := LineOf(InitialField, r.initial);
    var l2 := LineOf(FinalField, r.final);
    var l3 := LineOf(DiffField, r.diff);
    ReadLineOf(InitialField, r.initial);
    ReadLineOf(FinalField, r.final);
    ReadLineOf(DiffField, r.diff);
    assert [l1, l2, l3][..2] == [l1, l2] && [l1, l2][..1] == [l1] && [l1][..0] == [];
    assert ParseLines([l1]) == Fields(Some(r.initial), None, None, []);
    assert ParseLines([l1, l2]) == Fields(Some(r.initial), Some(r.final), None, []);
  }

  /** Reading back `ranks.txt` gives the three numbers `deconv` wrote, without a warning. */
  lemma RanksRoundTrip(r: RankRecord)
    ensures ParseLines(SplitLines(FormatRanks(r))) ==
            Fields(Some(r.initial), Some(r.final), Some(r.diff), [])
  {
    WrittenLines(r);
    ParseWritten(r);
  }
}
