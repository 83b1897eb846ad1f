/** The grid component's layout logic: parsing a layout string such as
    `xs=[12,12] m=[6,6]` into breakpoint rules, giving each child the
    column classes of its column, and cutting the children into rows.

    The constants of the breakpoint names, the hidden-class table and the
    ignored tag names live in a file that is not part of this model; they
    are the parameters in `GridConfig`. */
module Grid {
  import opened Wrappers
  import opened Strings

  datatype GridConfig = GridConfig(
    breakpoints: seq<string>,          // GRID_BREAKPOINTS
    hidden: map<string, string>,       // GRID_HIDDEN_BREAKPOINTS
    ignored: seq<string>)              // GRID_IGNORED_COMPONENTS

  /** One kept breakpoint rule: its name and its full, trimmed value list. */
  datatype Rule = Rule(breakpoint: string, values: seq<string>)

  /** A child element: its tag name and its class attribute. */
  datatype Child = Child(tag: string, className: string)

  /** What rendering does to the host: nothing (the children stay in the
      slot), or the non-ignored children moved into rows; a TypeError in
      the layout parser aborts the render. */
  datatype Rendered = Untouched | Restructured(rows: seq<seq<Child>>) | Crashed

  // ---------------------------------------------------------------------
  // parseInt

  /** The value of a digit character in `radix` (10 or 16), if it is one. */
  function DigitValue(c: char, radix: int): (d: Option<int>)
    ensures d.Some? ==> 0 <= d.value < radix
  {
    var v :=
      if '0' <= c <= '9' then c as int - '0' as int
      else if 'a' <= c <= 'z' then c as int - 'a' as int + 10
      else if 'A' <= c <= 'Z' then c as int - 'A' as int + 10
      else 99;
    if v < radix then Some(v) else None
  }

  /** Length of the longest prefix of `s` made of digits of `radix`. */
  function DigitRun(s: string, radix: int): (n: nat)
    ensures n <= |s|
    ensures forall i :: 0 <= i < n ==> DigitValue(s[i], radix).Some?
    ensures n == |s| || DigitValue(s[n], radix).None?
  {
    if s != [] && DigitValue(s[0], radix).Some? then
      var n := DigitRun(s[1..], radix);
      assert forall i :: 1 <= i < n + 1 ==> s[i] == s[1..][i - 1];
      n + 1
    else 0
  }

  /** The number a run of digits denotes, most significant first. */
  function DigitsValue(ds: string, radix: int): nat
    requires forall i :: 0 <= i < |ds| ==> DigitValue(ds[i], radix).Some?
  {
    if ds == [] then 0
    else
      var high := DigitsValue(ds[..|ds| - 1], radix);
      var low := DigitValue(ds[|ds| - 1], radix).value;
      assert 0 <= low < radix;
      var scaled: nat := high * radix;
      scaled + low
  }

  /** The unsigned part of `parseInt`: a '0x' prefix selecting base 16,
      then the longest run of digits; None (NaN) when the run is empty. */
  function ParseMagnitude(u: string): (r: Option<nat>)
    ensures u != [] && u[0] != '0' && DigitValue(u[0], 10).None? ==> r.None?
  {
    var hex := |u| >= 2 && u[0] == '0' && (u[1] == 'x' || u[1] == 'X');
    var radix := if hex then 16 else 10;
    var w := if hex then u[2..] else u;
    var n := DigitRun(w, radix);
    if n == 0 then None else Some(DigitsValue(w[..n], radix))
  }

  /** JavaScript `parseInt` without a radix: leading whitespace, an
      optional sign, then the unsigned part. `-0` parses as 0. */
  function ParseInt(s: string): (r: Option<int>)
  {
    ParseSigned(s[LeadingSpaces(s)..])
  }

  /** `parseInt` after the leading whitespace: an optional sign, then the
      unsigned part. */
  function ParseSigned(t: string): (r: Option<int>)
  {
    var negative := t != [] && t[0] == '-';
    var u := if t != [] && (t[0] == '-' || t[0] == '+') then t[1..] else t;
    Signed(negative, ParseMagnitude(u))
  }

  /** Decimal notation of a natural number (a reference for ParseInt). */
  function Decimal(n: nat): (s: string)
    ensures s != []
    ensures forall i :: 0 <= i < |s| ==> '0' <= s[i] <= '9'
  {
    if n < 10 then [('0' as int + n) as char]
    else Decimal(n / 10) + [('0' as int + n % 10) as char]
  }

  lemma {:induction false} DecimalValue(n: nat)
    ensures forall i :: 0 <= i < |Decimal(n)| ==> DigitValue(Decimal(n)[i], 10).Some?
    ensures DigitsValue(Decimal(n), 10) == n
  {
    var s := Decimal(n);
    assert forall i :: 0 <= i < |s| ==> DigitValue(s[i], 10).Some?;
    if n >= 10 {
      DecimalValue(n / 10);
      assert s[..|s| - 1] == Decimal(n / 10);
    }
  }

  /** The digit run of a run of digits followed by a non-digit is that run. */
  lemma {:induction false} DigitRunOf(d: string, rest: string, radix: int)
    requires forall i :: 0 <= i < |d| ==> DigitValue(d[i], radix).Some?
    requires rest == [] || DigitValue(rest[0], radix).None?
    ensures DigitRun(d + rest, radix) == |d|
  {
    if d != [] {
      assert (d + rest)[1..] == d[1..] + rest;
      DigitRunOf(d[1..], rest, radix);
    } else {
      assert d + rest == rest;
    }
  }

  /** Text that starts with neither whitespace, a sign nor a decimal digit
      is not a number. */
  lemma ParseIntNaN(s: string)
    requires s != [] && !IsSpace(s[0]) && s[0] != '-' && s[0] != '+' && DigitValue(s[0], 10).None?
    ensures ParseInt(s).None?
  {
    assert LeadingSpaces(s) == 0;
    assert s[0..] == s;
  }

  /** After leading whitespace and an optional sign, `parseInt` is the
      unsigned part, negated after a minus. Without a sign the unsigned
      part must not itself start with whitespace or a sign. */
  lemma ParseIntOf(spaces: string, sign: string, u: string)
    requires forall i :: 0 <= i < |spaces| ==> IsSpace(spaces[i])
    requires sign == "" || sign == "-" || sign == "+"
    requires sign == "" ==> u == [] || (!IsSpace(u[0]) && u[0] != '-' && u[0] != '+')
    ensures ParseInt(spaces + sign + u) == Signed(sign == "-", ParseMagnitude(u))
  {
    var t := sign + u;
    var s := spaces + sign + u;
    assert s == spaces + t;
    assert t != [] ==> t[0] == (if sign != "" then sign[0] else u[0]);
    LeadingSpacesOf(spaces, t);
    assert s[|spaces|..] == t;
    ParseSignedOf(sign, u);
  }

  /** The value of the unsigned part, negated when `negative`. */
  function Signed(negative: bool, m: Option<nat>): Option<int> {
    match m
    case None => None
    case Some(v) => var n: int := v; Some(if negative then -n else n)
  }

  lemma ParseSignedOf(sign: string, u: string)
    requires sign == "" || sign == "-" || sign == "+"
    requires sign == "" ==> u == [] || (u[0] != '-' && u[0] != '+')
    ensures ParseSigned(sign + u) == Signed(sign == "-", ParseMagnitude(u))
  {
    var t := sign + u;
    if sign != "" {
      assert t[0] == sign[0] && t[1..] == u;
    } else {
      assert t == u;
    }
  }

  /** The unsigned part reads back a decimal numeral, whatever follows it
      as long as that does not continue the number or turn it into a hex
      prefix. */
  lemma MagnitudeOfDecimal(n: nat, rest: string)
    requires rest == [] || (DigitValue(rest[0], 10).None? && (n != 0 || (rest[0] != 'x' && rest[0] != 'X')))
    ensures ParseMagnitude(Decimal(n) + rest) == Some(n)
  {
    var d := Decimal(n);
    var s := d + rest;
    DecimalValue(n);
    DecimalLeads(n);
    assert s[0] == d[0];
    assert !(|s| >= 2 && s[0] == '0' && (s[1] == 'x' || s[1] == 'X')) by {
      if |d| == 1 && |s| >= 2 { assert s[1] == rest[0]; }
      else if |s| >= 2 { assert s[1] == d[1]; }
    }
    DigitRunOf(d, rest, 10);
    assert s[..|d|] == d;
  }

  /** Only zero is written with a leading '0'. */
  lemma {:induction false} DecimalLeads(n: nat)
    ensures Decimal(n)[0] == '0' <==> n == 0
  {
    if n >= 10 {
      DecimalLeads(n / 10);
      assert Decimal(n)[0] == Decimal(n / 10)[0];
    }
  }

  /** The leading whitespace of `spaces + t` is `spaces`, when `t` does not
      start with whitespace. */
  lemma {:induction false} LeadingSpacesOf(spaces: string, t: string)
    requires forall i :: 0 <= i < |spaces| ==> IsSpace(spaces[i])
    requires t == [] || !IsSpace(t[0])
    ensures LeadingSpaces(spaces + t) == |spaces|
  {
    if spaces != [] {
      assert (spaces + t)[1..] == spaces[1..] + t;
      LeadingSpacesOf(spaces[1..], t);
    } else {
      assert spaces + t == t;
    }
  }

  /** `parseInt` reads back a decimal numeral after any leading whitespace
      and an optional sign, whatever follows it as long as that does not
      continue the number or, after a lone '0', turn it into a hex prefix. */
  lemma ParseDecimal(spaces: string, sign: string, n: nat, rest: string)
    requires forall i :: 0 <= i < |spaces| ==> IsSpace(spaces[i])
    requires sign == "" || sign == "-" || sign == "+"
    requires rest == [] || (DigitValue(rest[0], 10).None? && (n != 0 || (rest[0] != 'x' && rest[0] != 'X')))
    ensures ParseInt(spaces + sign + (Decimal(n) + rest)) == Some(if sign == "-" then -(n as int) else n as int)
  {
    DecimalStart(n, rest);
    MagnitudeOfDecimal(n, rest);
    ParseIntNumber(spaces, sign, Decimal(n) + rest, n);
  }

  lemma ParseIntNumber(spaces: string, sign: string, u: string, n: nat)
    requires forall i :: 0 <= i < |spaces| ==> IsSpace(spaces[i])
    requires sign == "" || sign == "-" || sign == "+"
    requires u != [] && '0' <= u[0] <= '9'
    requires ParseMagnitude(u) == Some(n)
    ensures ParseInt(spaces + sign + u) == Some(if sign == "-" then -(n as int) else n as int)
  {
    assert !IsSpace(u[0]);
    ParseIntOf(spaces, sign, u);
    SignedSome(sign == "-", n);
  }

  lemma SignedSome(negative: bool, n: nat)
    ensures Signed(negative, Some(n)) == Some(if negative then -(n as int) else n as int)
  {
  }

  lemma DecimalStart(n: nat, rest: string)
    ensures Decimal(n) + rest != [] && '0' <= (Decimal(n) + rest)[0] <= '9'
  {
    assert (Decimal(n) + rest)[0] == Decimal(n)[0];
  }

  // ---------------------------------------------------------------------
  // the layout parser

  /** A value counts towards the column number when it is 'auto' or parses
      to an integer in 0..12. */
  predicate Accepted(v: string) {
    v == "auto" || (ParseInt(v).Some? && 0 <= ParseInt(v).value < 13)
  }

  function AcceptedCount(vs: seq<string>): (n: nat)
    ensures n <= |vs|
  {
    if vs == [] then 0 else AcceptedCount(vs[..|vs| - 1]) + (if Accepted(vs[|vs| - 1]) then 1 else 0)
  }

  /** The values of a rule: the text after its first '=' and up to the
      next one, with the first '[' and the first ']' removed, split on ','
      and trimmed. */
  function RuleValues(afterEquals: string): (vs: seq<string>)
    ensures |vs| >= 1
  {
    var raw := RemoveFirst(RemoveFirst(afterEquals, '['), ']');
    var parts := Split(raw, ',');
    seq(|parts|, i requires 0 <= i < |parts| => Trim(parts[i]))
  }

  /** The outcome of one layout segment. */
  datatype Segment = Skip | Keep(rule: Rule) | Fail

  /** The filter of `_createLayoutRules` on one segment, then its map. A
      segment whose name is a breakpoint but which has no '=' reads a
      property of `undefined` and fails. */
  function Classify(seg: string, columns: int, cfg: GridConfig): (r: Segment)
    ensures r.Keep? ==> r.rule.breakpoint in cfg.breakpoints
    ensures r.Keep? ==> AcceptedCount(r.rule.values) == columns && |r.rule.values| >= columns
    ensures r.Fail? <==> Trim(Split(seg, '=')[0]) in cfg.breakpoints && '=' !in seg
    ensures r.Keep? <==>
      && Trim(Split(seg, '=')[0]) in cfg.breakpoints
      && '=' in seg
      && AcceptedCount(RuleValues(Split(seg, '=')[1])) == columns
    ensures r.Keep? ==> r.rule == Rule(Trim(Split(seg, '=')[0]), RuleValues(Split(seg, '=')[1]))
  {
    var parts := Split(seg, '=');
    var name := Trim(parts[0]);
    SplitSize(seg, '=');
    CountZero(seg, '=');
    if name !in cfg.breakpoints then Skip
    else if |parts| < 2 then Fail
    else
      var values := RuleValues(parts[1]);
      if AcceptedCount(values) != columns then Skip
      else Keep(Rule(name, values))
  }

  /** The segments of a layout: split on ']', each trimmed, lower-cased
      and given its ']' back. */
  function Segments(layout: string): (segs: seq<string>)
    ensures |segs| == |Split(layout, ']')|
    ensures forall i :: 0 <= i < |segs| ==> segs[i] != [] && segs[i][|segs[i]| - 1] == ']'
    ensures forall i :: 0 <= i < |segs| ==> segs[i][..|segs[i]| - 1] == Lower(Trim(Split(layout, ']')[i]))
  {
    var parts := Split(layout, ']');
    seq(|parts|, i requires 0 <= i < |parts| => Lower(Trim(parts[i])) + "]")
  }

  /** Add the outcome of one more segment to the rules kept so far. */
  function Then(prev: Option<seq<Rule>>, seg: Segment): Option<seq<Rule>> {
    match seg
    case Fail => None
    case Skip => prev
    case Keep(rule) => if prev.None? then None else Some(prev.value + [rule])
  }

  /** The kept rules of a list of segments, in order; None when a segment fails. */
  function RulesOf(segs: seq<string>, columns: int, cfg: GridConfig): (r: Option<seq<Rule>>)
    ensures r.Some? ==> forall k :: 0 <= k < |r.value| ==>
      r.value[k].breakpoint in cfg.breakpoints && AcceptedCount(r.value[k].values) == columns
    ensures r.Some? ==> forall k :: 0 <= k < |r.value| ==> |r.value[k].values| >= columns
  {
    if segs == [] then Some([])
    else
      var init := segs[..|segs| - 1];
      assert forall i :: 0 <= i < |init| ==> init[i] == segs[i];
      Then(RulesOf(init, columns, cfg), Classify(segs[|segs| - 1], columns, cfg))
  }

  /** `_createLayoutRules`: the rules of the layout's segments, in order;
      None when reading a segment throws. */
  function LayoutRules(layout: string, columns: int, cfg: GridConfig): (r: Option<seq<Rule>>)
    ensures r.None? <==> exists i :: 0 <= i < |Segments(layout)| && Classify(Segments(layout)[i], columns, cfg).Fail?
    ensures r.Some? ==> forall k :: 0 <= k < |r.value| ==>
      r.value[k].breakpoint in cfg.breakpoints && AcceptedCount(r.value[k].values) == columns
  {
    RulesOfFails(Segments(layout), columns, cfg);
    RulesOf(Segments(layout), columns, cfg)
  }

  lemma RulesOfSnoc(segs: seq<string>, columns: int, cfg: GridConfig)
    requires segs != []
    ensures RulesOf(segs, columns, cfg)
      == Then(RulesOf(segs[..|segs| - 1], columns, cfg), Classify(segs[|segs| - 1], columns, cfg))
  {
  }

  /** The outcome of each segment, in order. */
  function Outcomes(segs: seq<string>, columns: int, cfg: GridConfig): (os: seq<Segment>)
    ensures |os| == |segs|
    ensures forall i :: 0 <= i < |segs| ==> os[i] == Classify(segs[i], columns, cfg)
  {
    seq(|segs|, i requires 0 <= i < |segs| => Classify(segs[i], columns, cfg))
  }

  /** Then applied along a list of outcomes. */
  function Fold(os: seq<Segment>): Option<seq<Rule>> {
    if os == [] then Some([]) else Then(Fold(os[..|os| - 1]), os[|os| - 1])
  }

  lemma {:induction false} FoldFails(os: seq<Segment>)
    ensures Fold(os).None? <==> exists i :: 0 <= i < |os| && os[i].Fail?
  {
    if os != [] {
      var init := os[..|os| - 1];
      FoldFails(init);
      assert forall i :: 0 <= i < |init| ==> init[i] == os[i];
    }
  }

  lemma {:induction false} RulesOfFold(segs: seq<string>, columns: int, cfg: GridConfig)
    ensures RulesOf(segs, columns, cfg) == Fold(Outcomes(segs, columns, cfg))
  {
    if segs != [] {
      var init := segs[..|segs| - 1];
      RulesOfFold(init, columns, cfg);
      var os := Outcomes(segs, columns, cfg);
      assert os[..|os| - 1] == Outcomes(init, columns, cfg);
      RulesOfSnoc(segs, columns, cfg);
    }
  }

  /** Parsing fails exactly when one of the segments fails. */
  lemma RulesOfFails(segs: seq<string>, columns: int, cfg: GridConfig)
    ensures RulesOf(segs, columns, cfg).None? <==> exists i :: 0 <= i < |segs| && Classify(segs[i], columns, cfg).Fail?
  {
    RulesOfFold(segs, columns, cfg);
    FoldFails(Outcomes(segs, columns, cfg));
  }

  lemma ThenShift(ra: seq<Rule>, p: Option<seq<Rule>>, o: Segment)
    requires p.Some? && Then(p, o).Some?
    ensures Then(Some(ra + p.value), o) == Some(ra + Then(p, o).value)
  {
    if o.Keep? {
      AppendAssoc(ra, p.value, [o.rule]);
    }
  }

  /** Rules keep the order of their segments: the rules of a concatenation
      are the rules of each part, one after the other. */
  lemma {:induction false} RulesOfAppend(a: seq<string>, b: seq<string>, columns: int, cfg: GridConfig)
    requires RulesOf(a, columns, cfg).Some? && RulesOf(b, columns, cfg).Some?
    ensures RulesOf(a + b, columns, cfg) == Some(RulesOf(a, columns, cfg).value + RulesOf(b, columns, cfg).value)
    decreases |b|
  {
    var ra := RulesOf(a, columns, cfg).value;
    if b == [] {
      assert a + b == a;
      assert ra + [] == ra;
    } else {
      var b0 := b[..|b| - 1];
      var last := b[|b| - 1];
      var outcome := Classify(last, columns, cfg);
      var p := RulesOf(b0, columns, cfg);
      RulesOfSnoc(b, columns, cfg);
      ThenSome(p, outcome);
      RulesOfAppend(a, b0, columns, cfg);
      var ab := a + b;
      assert ab[..|ab| - 1] == a + b0 && ab[|ab| - 1] == last;
      RulesOfSnoc(ab, columns, cfg);
      ThenShift(ra, p, outcome);
    }
  }

  /** A failed prefix stays failed. */
  lemma ThenSome(p: Option<seq<Rule>>, o: Segment)
    requires Then(p, o).Some?
    ensures p.Some?
  {
  }

  /** A single segment is kept exactly when its name is a breakpoint, it
      has an '=', and its accepted values number `columns`. */
  lemma KeptIff(seg: string, columns: int, cfg: GridConfig)
    ensures RulesOf([seg], columns, cfg).Some? && RulesOf([seg], columns, cfg).value != [] <==>
      && Trim(Split(seg, '=')[0]) in cfg.breakpoints
      && '=' in seg
      && AcceptedCount(RuleValues(Split(seg, '=')[1])) == columns
  {
    assert [seg][..0] == [];
    assert RulesOf([seg], columns, cfg) == Then(Some([]), Classify(seg, columns, cfg));
  }

  /** A segment written `name=[v1,...,vn]` keeps a rule carrying all n
      values, accepted or not, exactly when the name is a breakpoint and
      `columns` of the values are accepted; otherwise it is skipped. */
  /** A value written as is: untrimmed-free and without the characters that
      delimit a rule. */
  predicate PlainValue(v: string) {
    Trim(v) == v && ',' !in v && '=' !in v && '[' !in v && ']' !in v
  }

  lemma RuleRoundTrip(name: string, vs: seq<string>, columns: int, cfg: GridConfig)
    requires '=' !in name && Trim(name) == name
    requires |vs| >= 1
    requires forall v :: v in vs ==> PlainValue(v)
    ensures Classify(name + ['=', '['] + Join(vs, ',') + [']'], columns, cfg) ==
      if name in cfg.breakpoints && AcceptedCount(vs) == columns then Keep(Rule(name, vs)) else Skip
  {
    assert forall k :: 0 <= k < |vs| ==> vs[k] in vs;
    JoinAvoids(vs, ',', '=');
    SegmentParts(name, Join(vs, ','));
    BracketValues(vs);
  }

  lemma SegmentParts(name: string, j: string)
    requires '=' !in name && '=' !in j
    ensures Split(name + ['=', '['] + j + [']'], '=') == [name, ['['] + j + [']']]
  {
    var rest := ['['] + j + [']'];
    Regroup(name, '=', '[', j, ']');
    assert '=' !in rest;
    SplitConcat(name, rest, '=');
  }

  lemma BracketValues(vs: seq<string>)
    requires |vs| >= 1
    requires forall v :: v in vs ==> PlainValue(v)
    ensures RuleValues(['['] + Join(vs, ',') + [']']) == vs
  {
    var j := Join(vs, ',');
    assert forall k :: 0 <= k < |vs| ==> vs[k] in vs;
    JoinAvoids(vs, ',', '[');
    JoinAvoids(vs, ',', ']');
    Unbracket(j);
    SplitJoin(vs, ',');
  }

  /** With two columns, `xs=[6,6,x]` keeps its rule: two of the values are
      accepted, and the rule carries all three, 'x' included. */
  lemma ExampleRule(cfg: GridConfig)
    requires "xs" in cfg.breakpoints
    ensures Classify("xs" + ['=', '['] + Join(["6", "6", "x"], ',') + [']'], 2, cfg) == Keep(Rule("xs", ["6", "6", "x"]))
  {
    ExampleReady();
    RuleKept("xs", ["6", "6", "x"], 2, cfg);
  }

  /** The example meets the conditions of RuleKept other than the breakpoint. */
  lemma ExampleReady()
    ensures '=' !in "xs" && Trim("xs") == "xs"
    ensures forall v :: v in ["6", "6", "x"] ==> PlainValue(v)
    ensures AcceptedCount(["6", "6", "x"]) == 2
  {
    TrimPlain("xs");
    ExampleAccepted();
    ExampleValuesPlain();
  }

  /** The kept case of RuleRoundTrip. */
  lemma RuleKept(name: string, vs: seq<string>, columns: int, cfg: GridConfig)
    requires '=' !in name && Trim(name) == name
    requires |vs| >= 1 && forall v :: v in vs ==> PlainValue(v)
    requires name in cfg.breakpoints && AcceptedCount(vs) == columns
    ensures Classify(name + ['=', '['] + Join(vs, ',') + [']'], columns, cfg) == Keep(Rule(name, vs))
  {
    RuleRoundTrip(name, vs, columns, cfg);
  }

  lemma ExampleValuesPlain()
    ensures forall v :: v in ["6", "6", "x"] ==> PlainValue(v)
  {
    PlainOne('6');
    PlainOne('x');
  }

  /** A one-character value other than a space or a rule delimiter is plain. */
  lemma PlainOne(c: char)
    requires !IsSpace(c) && c !in ",=[]"
    ensures PlainValue([c])
  {
    TrimPlain([c]);
  }

  lemma ExampleAccepted()
    ensures AcceptedCount(["6", "6", "x"]) == 2
  {
    var vs := ["6", "6", "x"];
    SixAccepted();
    ParseIntNaN("x");
    assert vs[..2][..1] == ["6"] && vs[..1][..0] == [] && vs[..2] == ["6", "6"];
  }

  lemma SixAccepted()
    ensures Accepted("6")
  {
    assert Decimal(6) == "6";
    ParseDecimal("", "", 6, "");
    assert "" + "" + ("6" + "") == "6";
  }

  /** When no breakpoint name contains ']', parsing never fails: a segment
      without '=' ends in ']', so its name is not a breakpoint. */
  lemma {:induction false} RulesNeverFail(segs: seq<string>, columns: int, cfg: GridConfig)
    requires forall b :: b in cfg.breakpoints ==> ']' !in b
    requires forall i :: 0 <= i < |segs| ==> segs[i] != [] && segs[i][|segs[i]| - 1] == ']'
    ensures RulesOf(segs, columns, cfg).Some?
  {
    if segs != [] {
      var init := segs[..|segs| - 1];
      RulesNeverFail(init, columns, cfg);
      var seg := segs[|segs| - 1];
      if '=' !in seg {
        assert Split(seg, '=') == [seg];
        assert !IsSpace(']');
        TrimKeepsLast(seg);
        assert ']' in Trim(seg);
      }
    }
  }

  // ---------------------------------------------------------------------
  // classes and rows

  /** The breakpoint names that have a bootstrap column class. */
  predicate HasClass(name: string) {
    name in {"xs", "s", "m", "l", "xl"}
  }

  /** The bootstrap infix of a breakpoint name; other names add no class. */
  function BreakpointClass(name: string): (r: Option<string>)
    ensures r == Some("xs") <==> name == "xs"
    ensures r == Some("sm") <==> name == "s"
    ensures r == Some("md") <==> name == "m"
    ensures r == Some("lg") <==> name == "l"
    ensures r == Some("xl") <==> name == "xl"
    ensures r.None? <==> !HasClass(name)
  {
    if name == "xs" then Some("xs")
    else if name == "s" then Some("sm")
    else if name == "m" then Some("md")
    else if name == "l" then Some("lg")
    else if name == "xl" then Some("xl")
    else None
  }

  /** `_getClass`: the hidden class of the breakpoint for "0" (the text
      'undefined' when the table lacks it), else `col-<bkpt>-<value>`;
      either way followed by a space. */
  function GetClass(hidden: map<string, string>, bkpt: string, value: string): (r: string)
    ensures r != [] && r[|r| - 1] == ' '
    ensures value != "0" ==> r == "col-" + bkpt + "-" + value + " "
    ensures value == "0" && bkpt in hidden ==> r == hidden[bkpt] + " "
  {
    if value == "0" then (if bkpt in hidden then hidden[bkpt] else "undefined") + " "
    else "col-" + bkpt + "-" + value + " "
  }

  /** The classes every rule adds to a child in column `index`, in rule order. */
  function ClassList(rules: seq<Rule>, hidden: map<string, string>, index: nat): string
    requires forall k :: 0 <= k < |rules| ==> index < |rules[k].values|
  {
    if rules == [] then ""
    else
      ClassList(rules[..|rules| - 1], hidden, index) + RuleClass(rules[|rules| - 1], hidden, index)
  }

  /** The classes one rule adds to a child in column `index`. */
  function RuleClass(rule: Rule, hidden: map<string, string>, index: nat): (r: string)
    requires index < |rule.values|
    ensures r == "" <==> !HasClass(rule.breakpoint)
    ensures r != "" ==> r[|r| - 1] == ' '
  {
    match BreakpointClass(rule.breakpoint)
    case Some(b) => GetClass(hidden, b, rule.values[index])
    case None => ""
  }

  /** A child gets no class exactly when no rule names a breakpoint with a
      class; otherwise its class text ends in a space. */
  lemma {:induction false} ClassListEmpty(rules: seq<Rule>, hidden: map<string, string>, index: nat)
    requires forall k :: 0 <= k < |rules| ==> index < |rules[k].values|
    ensures ClassList(rules, hidden, index) == "" <==> NoClass(rules)
    ensures ClassList(rules, hidden, index) != "" ==> ClassList(rules, hidden, index)[|ClassList(rules, hidden, index)| - 1] == ' '
  {
    ClassListNone(rules, hidden, index);
    ClassListEnds(rules, hidden, index);
  }

  lemma {:induction false} ClassListNone(rules: seq<Rule>, hidden: map<string, string>, index: nat)
    requires forall k :: 0 <= k < |rules| ==> index < |rules[k].values|
    ensures ClassList(rules, hidden, index) == "" <==> NoClass(rules)
  {
    if rules != [] {
      var init := rules[..|rules| - 1];
      ClassListNone(init, hidden, index);
      ClassListSnoc(rules, hidden, index);
      NoClassSnoc(rules);
      EmptyConcat(ClassList(init, hidden, index), RuleClass(rules[|rules| - 1], hidden, index));
    }
  }

  /** No rule names a breakpoint with a class. */
  predicate NoClass(rules: seq<Rule>) {
    forall k :: 0 <= k < |rules| ==> !HasClass(rules[k].breakpoint)
  }

  lemma NoClassSnoc(rules: seq<Rule>)
    requires rules != []
    ensures NoClass(rules) <==> NoClass(rules[..|rules| - 1]) && !HasClass(rules[|rules| - 1].breakpoint)
  {
    var init := rules[..|rules| - 1];
    assert forall k :: 0 <= k < |init| ==> init[k] == rules[k];
    if !NoClass(rules) {
      var k :| 0 <= k < |rules| && HasClass(rules[k].breakpoint);
      if k < |init| {
        assert HasClass(init[k].breakpoint);
      }
    }
  }

  lemma EmptyConcat(a: string, b: string)
    ensures a + b == "" <==> a == "" && b == ""
  {
    if a + b == "" {
      assert |a + b| == 0;
    }
  }

  lemma {:induction false} ClassListEnds(rules: seq<Rule>, hidden: map<string, string>, index: nat)
    requires forall k :: 0 <= k < |rules| ==> index < |rules[k].values|
    ensures ClassList(rules, hidden, index) != "" ==> ClassList(rules, hidden, index)[|ClassList(rules, hidden, index)| - 1] == ' '
  {
    if rules != [] {
      var init, last := rules[..|rules| - 1], rules[|rules| - 1];
      ClassListEnds(init, hidden, index);
      ClassListSnoc(rules, hidden, index);
      var a, b := ClassList(init, hidden, index), RuleClass(last, hidden, index);
      if b != "" {
        assert (a + b)[|a + b| - 1] == b[|b| - 1];
      } else {
        assert a + b == a;
      }
    }
  }

  lemma ClassListSnoc(rules: seq<Rule>, hidden: map<string, string>, index: nat)
    requires rules != []
    requires forall k :: 0 <= k < |rules| ==> index < |rules[k].values|
    ensures ClassList(rules, hidden, index) ==
      ClassList(rules[..|rules| - 1], hidden, index) + RuleClass(rules[|rules| - 1], hidden, index)
  {
  }

  /** The classes of a concatenation of rule lists are those of each list,
      one after the other. */
  lemma {:induction false} ClassListAppend(a: seq<Rule>, b: seq<Rule>, hidden: map<string, string>, index: nat)
    requires forall k :: 0 <= k < |a| ==> index < |a[k].values|
    requires forall k :: 0 <= k < |b| ==> index < |b[k].values|
    ensures forall k :: 0 <= k < |a + b| ==> index < |(a + b)[k].values|
    ensures ClassList(a + b, hidden, index) == ClassList(a, hidden, index) + ClassList(b, hidden, index)
    decreases |b|
  {
    if b == [] {
      assert a + b == a;
    } else {
      var init, last := b[..|b| - 1], b[|b| - 1];
      ClassListAppend(a, init, hidden, index);
      var ab := a + b;
      assert ab[..|ab| - 1] == a + init;
      assert ab[|ab| - 1] == last;
      ClassListSnoc(ab, hidden, index);
      ClassListSnoc(b, hidden, index);
      AppendAssoc(ClassList(a, hidden, index), ClassList(init, hidden, index), RuleClass(last, hidden, index));
    }
  }

  /** The children the grid lays out: those whose lower-cased tag is not ignored. */
  function Laid(children: seq<Child>, ignored: seq<string>): (r: seq<Child>)
    ensures |r| <= |children|
    ensures forall k :: 0 <= k < |r| ==> r[k] in children && Lower(r[k].tag) !in ignored
    ensures forall c :: c in children && Lower(c.tag) !in ignored ==> c in r
  {
    if children == [] then []
    else
      var init := children[..|children| - 1];
      var prev := Laid(init, ignored);
      var c := children[|children| - 1];
      assert forall k :: 0 <= k < |prev| ==> prev[k] in children;
      assert forall x :: x in children ==> x in init || x == c;
      if Lower(c.tag) in ignored then prev else prev + [c]
  }

  /** Laying out keeps the children's order: the children of `a + b` laid
      out are those of `a` followed by those of `b`. */
  lemma {:induction false} LaidAppend(a: seq<Child>, b: seq<Child>, ignored: seq<string>)
    ensures Laid(a + b, ignored) == Laid(a, ignored) + Laid(b, ignored)
    decreases |b|
  {
    if b == [] {
      assert a + b == a;
    } else {
      var init := b[..|b| - 1];
      LaidAppend(a, init, ignored);
      assert (a + b)[..|a + b| - 1] == a + init;
      assert (a + b)[|a + b| - 1] == b[|b| - 1];
    }
  }

  /** A single child is laid out exactly when its tag is not ignored. */
  lemma LaidOne(c: Child, ignored: seq<string>)
    ensures Laid([c], ignored) == if Lower(c.tag) in ignored then [] else [c]
  {
    assert [c][..0] == [];
  }

  /** The rows of the children: consecutive chunks of `columns`, the last
      one shorter; one empty row when there are no children. */
  function Chunks<T>(xs: seq<T>, columns: nat): (rows: seq<seq<T>>)
    requires columns >= 1
    ensures |rows| >= 1
    ensures forall i :: 0 <= i < |rows| ==> |rows[i]| <= columns
    decreases |xs|
  {
    if |xs| <= columns then [xs] else [xs[..columns]] + Chunks(xs[columns..], columns)
  }

  function Flatten<T>(rows: seq<seq<T>>): seq<T> {
    if rows == [] then [] else rows[0] + Flatten(rows[1..])
  }

  /** The rows partition the children in order, every row but the last is
      full, and no row is empty unless there are no children at all. */
  lemma {:induction false} ChunksPartition<T>(xs: seq<T>, columns: nat)
    requires columns >= 1
    ensures Flatten(Chunks(xs, columns)) == xs
    ensures forall i :: 0 <= i < |Chunks(xs, columns)| - 1 ==> |Chunks(xs, columns)[i]| == columns
    ensures xs != [] ==> forall i :: 0 <= i < |Chunks(xs, columns)| ==> Chunks(xs, columns)[i] != []
    decreases |xs|
  {
    if |xs| > columns {
      ChunksPartition(xs[columns..], columns);
      var rows := Chunks(xs, columns);
      assert rows[1..] == Chunks(xs[columns..], columns);
      assert xs == xs[..columns] + xs[columns..];
    } else {
      assert Flatten([xs]) == xs + Flatten<T>([]);
    }
  }

  /** The row loop of `render`: splice off min(columns, remaining) children
      per row until none remain, emitting at least one row. */
  method RowLoop<T>(xs: seq<T>, columns: nat) returns (rows: seq<seq<T>>)
    requires columns >= 1
    ensures rows == Chunks(xs, columns)
  {
    var rest := xs;
    rows := [];
    var done := false;
    while !done
      invariant done ==> rest == [] && rows + [] == rows
      invariant !done ==> rows + Chunks(rest, columns) == Chunks(xs, columns)
      invariant done ==> rows == Chunks(xs, columns)
      decreases (if done then 0 else 1) + |rest|
    {
      var n := if columns < |rest| then columns else |rest|;
      var row := rest[..n];
      if |rest| > columns {
        assert Chunks(rest, columns) == [row] + Chunks(rest[n..], columns);
      } else {
        assert row == rest;
      }
      rows := rows + [row];
      rest := rest[n..];
      done := |rest| == 0;
      if !done {
        assert rows + Chunks(rest, columns) == Chunks(xs, columns);
      }
    }
  }

  /** The child's new class attribute: its old classes, a space and the
      rule classes, each trimmed, and the whole trimmed again. */
  function Restyle(c: Child, classes: string): Child {
    Child(c.tag, Trim(Trim(c.className) + " " + Trim(classes)))
  }

  /** `render`: nothing changes when `columns` or `layout` is falsy or no
      rule survives; otherwise the k-th laid-out child gets the classes of
      column k mod columns, and the children are cut into rows. */
  function Render(columns: int, layout: Option<string>, cfg: GridConfig, children: seq<Child>): (r: Rendered)
    ensures columns == 0 || layout.None? || layout == Some("") ==> r == Untouched
    ensures layout.Some? && LayoutRules(layout.value, columns, cfg) == Some([]) ==> r == Untouched
    ensures columns != 0 && layout.Some? && layout.value != "" ==>
      (r.Restructured? <==> LayoutRules(layout.value, columns, cfg).Some? && LayoutRules(layout.value, columns, cfg).value != [])
    ensures r.Crashed? <==> columns != 0 && layout.Some? && layout.value != "" && LayoutRules(layout.value, columns, cfg).None?
    ensures r.Restructured? ==> columns >= 1 && Flatten(r.rows) == Restyled(columns, LayoutRules(layout.value, columns, cfg).value, cfg, children)
    ensures r.Restructured? ==> forall i :: 0 <= i < |r.rows| ==> |r.rows[i]| <= columns
    ensures r.Restructured? ==> forall i :: 0 <= i < |r.rows| - 1 ==> |r.rows[i]| == columns
    ensures r.Restructured? && Restyled(columns, LayoutRules(layout.value, columns, cfg).value, cfg, children) == [] ==> r.rows == [[]]
    ensures r.Restructured? ==> r.rows == Chunks(Restyled(columns, LayoutRules(layout.value, columns, cfg).value, cfg, children), columns)
  {
    if columns == 0 || layout.None? || layout.value == "" then Untouched
    else
      match LayoutRules(layout.value, columns, cfg)
      case None => Crashed
      case Some(rules) =>
        if rules == [] then Untouched
        else
          assert AcceptedCount(rules[0].values) == columns;
          var laid := Restyled(columns, rules, cfg, children);
          ChunksPartition(laid, columns);
          Restructured(Chunks(laid, columns))
  }

  /** The laid-out children with their new classes, in order. */
  function Restyled(columns: int, rules: seq<Rule>, cfg: GridConfig, children: seq<Child>): (r: seq<Child>)
    requires columns >= 1
    requires forall k :: 0 <= k < |rules| ==> |rules[k].values| >= columns
    ensures |r| == |Laid(children, cfg.ignored)|
    ensures forall k :: 0 <= k < |r| ==> r[k].tag == Laid(children, cfg.ignored)[k].tag
  {
    var laid := Laid(children, cfg.ignored);
    seq(|laid|, k requires 0 <= k < |laid| => Restyle(laid[k], ClassList(rules, cfg.hidden, k % columns)))
  }

  /** The column index `k mod columns` is a valid index into every kept
      rule's values, since each kept rule has at least `columns` of them. */
  lemma ColumnIndexInRange(layout: string, columns: int, cfg: GridConfig, k: nat)
    requires columns >= 1
    requires LayoutRules(layout, columns, cfg).Some?
    ensures forall j :: 0 <= j < |LayoutRules(layout, columns, cfg).value| ==>
      k % columns < |LayoutRules(layout, columns, cfg).value[j].values|
  {
  }
}
