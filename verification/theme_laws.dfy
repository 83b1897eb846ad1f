/** Laws of the theme runner: the ranking invariant every task keeps, what
    `intersect` and `difference` may and may not touch, last-writer-wins
    for `overridden`, the seeding of `themes`, the ranked insertion of
    `extended`, and the command fold. */
module ThemeLaws {
  import opened Wrappers
  import opened Strings
  import opened Json
  import opened ThemeModel
  import opened ThemeOptions
  import opened ThemeRunner

  /** The bucket at (c, m), if any. */
  function Lookup(g: Generated, c: string, m: string): Option<Bucket> {
    if c in g && m in g[c] then Some(g[c][m]) else None
  }

  /** Same components, and the same modes under each. */
  ghost predicate SameLocations(a: Generated, b: Generated) {
    && a.Keys == b.Keys
    && forall k :: k in a ==> a[k].Keys == b[k].Keys
  }

  // ---------------------------------------------------------------------
  // The ranking invariant

  lemma {:induction false} SweepThemeRanked(reg: Registry, step: Step, base: Generated, t: string, cs: seq<string>, acc: Generated)
    requires cs == [] || t in reg
    requires Ranked(acc)
    ensures Ranked(SweepTheme(reg, step, base, t, cs, acc))
    decreases |cs|
  {
    if cs != [] {
      var mid := SweepTheme(reg, step, base, t, cs[..|cs| - 1], acc);
      SweepThemeRanked(reg, step, base, t, cs[..|cs| - 1], acc);
      var c := cs[|cs| - 1];
      var r := Visit(reg, step, base, t, c, mid);
      assert RankedEntry(Entry(mid, c));
      forall k | k in r ensures RankedModes(r[k]) {
        assert Entry(r, k) == Some(r[k]);
        if k != c { assert Entry(mid, k) == Some(r[k]); }
      }
    }
  }

  lemma {:induction false} SweepRanked(reg: Registry, step: Step, base: Generated, ts: seq<string>, acc: Generated)
    requires forall t :: t in ts ==> Reaches(reg, step, t)
    requires Ranked(acc)
    ensures Ranked(Sweep(reg, step, base, ts, acc))
    decreases |ts|
  {
    if ts != [] {
      var init := ts[..|ts| - 1];
      var t := ts[|ts| - 1];
      assert forall u :: u in init ==> u in ts;
      SweepRanked(reg, step, base, init, acc);
      SweepThemeRanked(reg, step, base, t, Candidates(reg, step, t), Sweep(reg, step, base, init, acc));
    }
  }

  /** Every task keeps every bucket well ranked. */
  lemma TaskKeepsRanked(reg: Registry, st: State, key: string, value: Json)
    requires Ranked(st.generated)
    ensures Task(reg, st, key, value).Completed? ==> Ranked(Task(reg, st, key, value).state.generated)
  {
    if key == "themes" && ThemeList(value).Some? {
      var themes := ThemeList(value).value;
      if |themes| > 0 && themes[0] in reg {
        SweepThemeRanked(reg, Seed, st.generated, themes[0], reg[themes[0]].order, st.generated);
      }
    } else if (key == "overridden" || key == "extended") && !value.JNull? && Check(KindOf(key), value) {
      var step := StepOf(KindOf(key), Decode(KindOf(key), value));
      if forall t :: t in Tail(st.themes) ==> Reaches(reg, step, t) {
        ApplyTaskRanked(reg, st, step);
      }
    }
  }

  /** An override or extend keeps every bucket well ranked. */
  lemma ApplyTaskRanked(reg: Registry, st: State, step: Step)
    requires !step.Seed?
    requires forall t :: t in Tail(st.themes) ==> Reaches(reg, step, t)
    requires Ranked(st.generated)
    ensures Ranked(ApplyTask(reg, st, step).generated)
  {
    var g := st.generated;
    if step.opt.setOp == Difference {
      SweepRanked(reg, step, g, Tail(st.themes), map[]);
    } else {
      SweepRanked(reg, step, g, Tail(st.themes), g);
    }
  }

  lemma {:induction false} RunFieldsKeepsRanked(reg: Registry, st: State, fields: seq<(string, Json)>)
    requires Ranked(st.generated)
    ensures RunFields(reg, st, fields).Completed? ==> Ranked(RunFields(reg, st, fields).state.generated)
    decreases |fields|
  {
    if fields != [] {
      TaskKeepsRanked(reg, st, fields[0].0, fields[0].1);
      var r := Task(reg, st, fields[0].0, fields[0].1);
      if r.Completed? {
        RunFieldsKeepsRanked(reg, r.state, fields[1..]);
      }
    }
  }

  lemma {:induction false} RunFromKeepsRanked(reg: Registry, st: State, commands: seq<Json>)
    requires Ranked(st.generated)
    ensures RunFrom(reg, st, commands).Completed? ==> Ranked(RunFrom(reg, st, commands).state.generated)
    decreases |commands|
  {
    if commands != [] {
      if commands[0].JObj? {
        RunFieldsKeepsRanked(reg, st, commands[0].fields);
      }
      var r := RunCommand(reg, st, commands[0]);
      if r.Completed? {
        RunFromKeepsRanked(reg, r.state, commands[1..]);
      }
    }
  }

  /** After any run that completes, every bucket of the generated table is
      well ranked: priorities within 1..maxPriority, pairwise distinct, and
      maxPriority held by some theme. */
  lemma RunKeepsRanked(reg: Registry, commands: seq<Json>)
    ensures Run(reg, commands).Completed? ==> Ranked(Run(reg, commands).state.generated)
  {
    RunFromKeepsRanked(reg, Initial, commands);
  }

  /** The fold runs the commands strictly in order: a run of `a + b` is the
      run of `a` followed, if it completes, by the run of `b`. */
  lemma {:induction false} RunAppend(reg: Registry, st: State, a: seq<Json>, b: seq<Json>)
    ensures RunFrom(reg, st, a + b) ==
      match RunFrom(reg, st, a)
      case Threw => Threw
      case Completed(mid) => RunFrom(reg, mid, b)
    decreases |a|
  {
    if a == [] {
      assert a + b == b;
    } else {
      assert (a + b)[0] == a[0];
      assert (a + b)[1..] == a[1..] + b;
      var r := RunCommand(reg, st, a[0]);
      if r.Completed? {
        RunAppend(reg, r.state, a[1..], b);
      }
    }
  }

  // ---------------------------------------------------------------------
  // intersect: no location is created or removed

  lemma {:induction false} SweepThemeIntersect(reg: Registry, step: Step, base: Generated, t: string, cs: seq<string>, acc: Generated)
    requires cs == [] || t in reg
    requires IsIntersect(step)
    ensures SweepTheme(reg, step, base, t, cs, acc).Keys == acc.Keys
    ensures step.opt.matchBy == Some(ByMode) ==> SameLocations(SweepTheme(reg, step, base, t, cs, acc), acc)
    decreases |cs|
  {
    if cs != [] {
      var mid := SweepTheme(reg, step, base, t, cs[..|cs| - 1], acc);
      SweepThemeIntersect(reg, step, base, t, cs[..|cs| - 1], acc);
      var c := cs[|cs| - 1];
      var r := Visit(reg, step, base, t, c, mid);
      forall k ensures k in r <==> k in mid {
        assert Entry(r, k).Some? == Entry(mid, k).Some?;
      }
      if step.opt.matchBy == Some(ByMode) {
        forall k | k in r ensures r[k].Keys == mid[k].Keys {
          assert Entry(r, k) == Some(r[k]);
          assert Entry(mid, k) == Some(mid[k]);
        }
      }
    }
  }

  lemma {:induction false} SweepIntersect(reg: Registry, step: Step, base: Generated, ts: seq<string>, acc: Generated)
    requires forall t :: t in ts ==> Reaches(reg, step, t)
    requires IsIntersect(step)
    ensures Sweep(reg, step, base, ts, acc).Keys == acc.Keys
    ensures step.opt.matchBy == Some(ByMode) ==> SameLocations(Sweep(reg, step, base, ts, acc), acc)
    decreases |ts|
  {
    if ts != [] {
      var init := ts[..|ts| - 1];
      var t := ts[|ts| - 1];
      assert forall u :: u in init ==> u in ts;
      SweepIntersect(reg, step, base, init, acc);
      SweepThemeIntersect(reg, step, base, t, Candidates(reg, step, t), Sweep(reg, step, base, init, acc));
    }
  }

  /** An `intersect` override or extend never adds or removes a component,
      and with match 'mode' never adds or removes a (component, mode). */
  lemma IntersectKeepsLocations(reg: Registry, st: State, step: Step)
    requires IsIntersect(step)
    requires forall t :: t in Tail(st.themes) ==> Reaches(reg, step, t)
    ensures ApplyTask(reg, st, step).generated.Keys == st.generated.Keys
    ensures step.opt.matchBy == Some(ByMode) ==> SameLocations(ApplyTask(reg, st, step).generated, st.generated)
  {
    SweepIntersect(reg, step, st.generated, Tail(st.themes), st.generated);
  }

  // ---------------------------------------------------------------------
  // difference: what was present before is left alone

  lemma {:induction false} SweepThemeDifference(reg: Registry, step: Step, base: Generated, t: string, cs: seq<string>, acc: Generated)
    requires cs == [] || t in reg
    requires IsDifference(step) && step.opt.matchBy == Some(ByComponent)
    requires forall k :: k in acc ==> k !in base
    ensures forall k :: k in SweepTheme(reg, step, base, t, cs, acc) ==> k !in base
    decreases |cs|
  {
    if cs != [] {
      var mid := SweepTheme(reg, step, base, t, cs[..|cs| - 1], acc);
      SweepThemeDifference(reg, step, base, t, cs[..|cs| - 1], acc);
      var c := cs[|cs| - 1];
      var r := Visit(reg, step, base, t, c, mid);
      forall k | k in r ensures k !in base {
        assert Entry(r, k).Some?;
        if k != c { assert Entry(mid, k).Some?; }
      }
    }
  }

  lemma {:induction false} SweepDifference(reg: Registry, step: Step, base: Generated, ts: seq<string>, acc: Generated)
    requires forall t :: t in ts ==> Reaches(reg, step, t)
    requires IsDifference(step) && step.opt.matchBy == Some(ByComponent)
    requires forall k :: k in acc ==> k !in base
    ensures forall k :: k in Sweep(reg, step, base, ts, acc) ==> k !in base
    decreases |ts|
  {
    if ts != [] {
      var init := ts[..|ts| - 1];
      var t := ts[|ts| - 1];
      assert forall u :: u in init ==> u in ts;
      SweepDifference(reg, step, base, init, acc);
      SweepThemeDifference(reg, step, base, t, Candidates(reg, step, t), Sweep(reg, step, base, init, acc));
    }
  }

  /** A `difference` override or extend leaves every component that was
      present before untouched (match 'component'), or every (component,
      mode) that was present before untouched (match 'mode'): presence is
      tested against the table as it was when the operation began. */
  lemma DifferenceKeepsExisting(reg: Registry, st: State, step: Step)
    requires IsDifference(step)
    requires forall t :: t in Tail(st.themes) ==> Reaches(reg, step, t)
    ensures step.opt.matchBy == Some(ByComponent) ==>
      forall c :: c in st.generated ==> c in ApplyTask(reg, st, step).generated && ApplyTask(reg, st, step).generated[c] == st.generated[c]
    ensures step.opt.matchBy == Some(ByMode) ==>
      forall c, m :: c in st.generated && m in st.generated[c] ==>
        Lookup(ApplyTask(reg, st, step).generated, c, m) == Some(st.generated[c][m])
  {
    var g := st.generated;
    var styles := Sweep(reg, step, g, Tail(st.themes), map[]);
    if step.opt.matchBy == Some(ByComponent) {
      SweepDifference(reg, step, g, Tail(st.themes), map[]);
    }
  }

  // ---------------------------------------------------------------------
  // visiting a component once

  /** On a duplicate-free candidate list, the entry of a listed component is
      the result of exactly one visit. */
  lemma {:induction false} SweepThemeDistinct(reg: Registry, step: Step, base: Generated, t: string, cs: seq<string>, acc: Generated, c: string)
    requires t in reg
    requires Distinct(cs) && c in cs
    ensures Entry(SweepTheme(reg, step, base, t, cs, acc), c) == VisitAt(reg, step, base, t, c, Entry(acc, c))
    decreases |cs|
  {
    var init := cs[..|cs| - 1];
    assert Distinct(init);
    if cs[|cs| - 1] == c {
      assert c !in init by {
        forall k | 0 <= k < |init| ensures init[k] != c {
          assert init[k] == cs[k];
        }
      }
    } else {
      assert c in init by {
        var k :| 0 <= k < |cs| && cs[k] == c;
        assert init[k] == c;
      }
      SweepThemeDistinct(reg, step, base, t, init, acc, c);
    }
  }

  // ---------------------------------------------------------------------
  // themes: the base theme is inserted at every location it defines

  /** `themes` inserts the base theme's style at every (component, mode) it
      defines, on top of whatever bucket is already there, and leaves every
      other location as it was. */
  lemma ThemesSeedsBase(reg: Registry, st: State, themes: seq<string>, c: string, m: string)
    requires |themes| > 0 && themes[0] in reg
    ensures c in reg[themes[0]].components && m in reg[themes[0]].components[c] ==>
      Lookup(ThemesTask(reg, st, themes).generated, c, m)
        == Some(Insert(Lookup(st.generated, c, m), themes[0], reg[themes[0]].components[c][m], FromThemes))
    ensures !(c in reg[themes[0]].components && m in reg[themes[0]].components[c]) ==>
      Lookup(ThemesTask(reg, st, themes).generated, c, m) == Lookup(st.generated, c, m)
  {
    var base := themes[0];
    if c in reg[base].components {
      SweepThemeDistinct(reg, Seed, st.generated, base, reg[base].order, st.generated, c);
    }
  }

  /** Re-inserting a theme that is already in a bucket moves it to the top
      and leaves its old priority unheld. */
  lemma InsertLeavesGap(b: Bucket, theme: string, code: string, from: Origin)
    requires WellRanked(b) && theme in b.records
    ensures Insert(Some(b), theme, code, from).maxPriority == b.maxPriority + 1
    ensures !HasPriority(Insert(Some(b), theme, code, from), b.records[theme].priority)
  {
  }

  /** Inserting a theme that is not yet in a bucket keeps the priorities
      contiguous. */
  lemma InsertKeepsContiguous(b: Bucket, theme: string, code: string, from: Origin)
    requires WellRanked(b) && Contiguous(b) && theme !in b.records
    ensures Contiguous(Insert(Some(b), theme, code, from))
  {
    var r := Insert(Some(b), theme, code, from);
    forall p ensures 1 <= p <= r.maxPriority <==> HasPriority(r, p) {
      if 1 <= p <= b.maxPriority {
        assert HasPriority(b, p);
        var u :| u in b.records && b.records[u].priority == p;
        assert u in r.records && r.records[u].priority == p;
      } else if p == r.maxPriority {
        assert r.records[theme].priority == p;
      }
    }
  }

  /** Running the same `themes` command twice on a location that was empty
      leaves one record at priority 2 and no record at priority 1. */
  lemma ThemesTwiceBumps(reg: Registry, st: State, themes: seq<string>, c: string, m: string)
    requires |themes| > 0 && themes[0] in reg
    requires c in reg[themes[0]].components && m in reg[themes[0]].components[c]
    requires Lookup(st.generated, c, m).None?
    ensures var b := Lookup(ThemesTask(reg, ThemesTask(reg, st, themes), themes).generated, c, m);
      && b.Some?
      && b.value.maxPriority == 2
      && b.value.records.Keys == {themes[0]}
      && b.value.records[themes[0]].priority == 2
      && !HasPriority(b.value, 1)
  {
    var once := ThemesTask(reg, st, themes);
    ThemesSeedsBase(reg, st, themes, c, m);
    ThemesSeedsBase(reg, once, themes, c, m);
    InsertLeavesGap(Lookup(once.generated, c, m).value, themes[0], reg[themes[0]].components[c][m], FromThemes);
  }

  // ---------------------------------------------------------------------
  // overridden: the last theme to offer a location wins it outright

  /** The last theme of `ts` that offers component `c`. */
  function LastOfferer(reg: Registry, step: Step, ts: seq<string>, c: string): (r: Option<string>)
    ensures r.Some? ==> r.value in ts && Offers(reg, step, r.value, c)
    ensures r.None? <==> !OfferedBy(reg, step, ts, c)
  {
    if ts == [] then None
    else if Offers(reg, step, ts[|ts| - 1], c) then Some(ts[|ts| - 1])
    else
      var r := LastOfferer(reg, step, ts[..|ts| - 1], c);
      assert forall u :: u in ts ==> u in ts[..|ts| - 1] || u == ts[|ts| - 1];
      r
  }

  /** The last theme of `ts` that offers mode `m` of component `c`. */
  function LastModeOfferer(reg: Registry, step: Step, ts: seq<string>, c: string, m: string): (r: Option<string>)
    ensures r.Some? ==> r.value in ts && Offers(reg, step, r.value, c) && m in reg[r.value].components[c]
    ensures r.None? <==> forall u :: u in ts && Offers(reg, step, u, c) ==> m !in reg[u].components[c]
  {
    if ts == [] then None
    else
      var t := ts[|ts| - 1];
      if Offers(reg, step, t, c) && m in reg[t].components[c] then Some(t)
      else
        var r := LastModeOfferer(reg, step, ts[..|ts| - 1], c, m);
        assert forall u :: u in ts ==> u in ts[..|ts| - 1] || u == t;
        r
  }

  /** The candidates of a theme that it defines are the components it offers. */
  lemma CandidatesOffer(reg: Registry, step: Step, t: string, c: string)
    requires Reaches(reg, step, t)
    ensures Offers(reg, step, t, c) <==> c in Candidates(reg, step, t) && t in reg && c in reg[t].components
  {
  }

  /** The override visits that put a fresh single-record bucket at (c, m)
      for each theme that offers it: type 'all' with match 'mode', and type
      'difference' with match 'mode' where the table the operation started
      from has no bucket at (c, m). */
  predicate ReseedsMode(step: Step, base: Generated, c: string, m: string) {
    && step.Override?
    && step.opt.matchBy != Some(ByComponent)
    && (step.opt.setOp == All || (step.opt.setOp == Difference && Lookup(base, c, m).None?))
  }

  lemma VisitOverrideMode(reg: Registry, step: Step, base: Generated, t: string, d: string, acc: Generated, c: string, m: string)
    requires t in reg
    requires ReseedsMode(step, base, c, m)
    ensures Lookup(Visit(reg, step, base, t, d, acc), c, m) ==
      if d == c && c in reg[t].components && m in reg[t].components[c]
      then Some(Single(t, reg[t].components[c][m], FromOverridden))
      else Lookup(acc, c, m)
  {
    var r := Visit(reg, step, base, t, d, acc);
    if d != c {
      assert Entry(r, c) == Entry(acc, c);
    } else if c in reg[t].components {
      var modes := reg[t].components[c];
      var prior := if c in acc then acc[c] else map[];
      if step.opt.setOp == All {
        assert Entry(r, c) == Some(prior + Fresh(t, modes, FromOverridden));
      } else {
        var keep := if c in base then Without(modes, base[c].Keys) else modes;
        var next := prior + Fresh(t, keep, FromOverridden);
        assert Entry(r, c) == (if next == map[] then None else Some(next));
        if m in modes {
          assert m in keep && keep[m] == modes[m];
          assert m in next;
        }
      }
    }
  }

  lemma VisitOverrideComponent(reg: Registry, step: Step, base: Generated, t: string, d: string, acc: Generated, c: string)
    requires t in reg
    requires step.Override? && step.opt.matchBy == Some(ByComponent) && (step.opt.setOp != Difference || c !in base)
    ensures Entry(Visit(reg, step, base, t, d, acc), c) ==
      if d == c && c in reg[t].components && (step.opt.setOp != Intersect || c in acc)
      then Some(Fresh(t, reg[t].components[c], FromOverridden))
      else Entry(acc, c)
  {
    if d == c && c in reg[t].components {
      assert map[] + Fresh(t, reg[t].components[c], FromOverridden) == Fresh(t, reg[t].components[c], FromOverridden);
    }
  }

  lemma {:induction false} SweepThemeOverrideMode(reg: Registry, step: Step, base: Generated, t: string, cs: seq<string>, acc: Generated, c: string, m: string)
    requires t in reg
    requires ReseedsMode(step, base, c, m)
    ensures Lookup(SweepTheme(reg, step, base, t, cs, acc), c, m) ==
      if c in cs && c in reg[t].components && m in reg[t].components[c]
      then Some(Single(t, reg[t].components[c][m], FromOverridden))
      else Lookup(acc, c, m)
    decreases |cs|
  {
    if cs != [] {
      var init := cs[..|cs| - 1];
      SweepThemeOverrideMode(reg, step, base, t, init, acc, c, m);
      VisitOverrideMode(reg, step, base, t, cs[|cs| - 1], SweepTheme(reg, step, base, t, init, acc), c, m);
      assert c in cs <==> c in init || c == cs[|cs| - 1];
    }
  }

  lemma {:induction false} SweepOverrideMode(reg: Registry, step: Step, base: Generated, ts: seq<string>, acc: Generated, c: string, m: string)
    requires forall t :: t in ts ==> Reaches(reg, step, t)
    requires ReseedsMode(step, base, c, m)
    ensures Lookup(Sweep(reg, step, base, ts, acc), c, m) ==
      match LastModeOfferer(reg, step, ts, c, m)
      case Some(t) => Some(Single(t, reg[t].components[c][m], FromOverridden))
      case None => Lookup(acc, c, m)
    decreases |ts|
  {
    if ts != [] {
      var init := ts[..|ts| - 1];
      var t := ts[|ts| - 1];
      assert forall u :: u in init ==> u in ts;
      SweepOverrideMode(reg, step, base, init, acc, c, m);
      CandidatesOffer(reg, step, t, c);
      if t in reg {
        SweepThemeOverrideMode(reg, step, base, t, Candidates(reg, step, t), Sweep(reg, step, base, init, acc), c, m);
      }
    }
  }

  /** An `overridden` of type 'all' with match 'mode': every (component,
      mode) some tail theme offers holds a single priority-1 record of the
      last such theme; every other location is left as it was. */
  lemma OverrideModeLastWriter(reg: Registry, st: State, step: Step, c: string, m: string)
    requires step.Override? && step.opt.setOp == All && step.opt.matchBy == Some(ByMode)
    requires forall t :: t in Tail(st.themes) ==> Reaches(reg, step, t)
    ensures Lookup(ApplyTask(reg, st, step).generated, c, m) ==
      match LastModeOfferer(reg, step, Tail(st.themes), c, m)
      case Some(t) => Some(Single(t, reg[t].components[c][m], FromOverridden))
      case None => Lookup(st.generated, c, m)
  {
    SweepOverrideMode(reg, step, st.generated, Tail(st.themes), st.generated, c, m);
  }

  lemma {:induction false} SweepThemeOverrideComponent(reg: Registry, step: Step, base: Generated, t: string, cs: seq<string>, acc: Generated, c: string)
    requires t in reg
    requires step.Override? && step.opt.matchBy == Some(ByComponent) && (step.opt.setOp != Difference || c !in base)
    ensures Entry(SweepTheme(reg, step, base, t, cs, acc), c) ==
      if c in cs && c in reg[t].components && (step.opt.setOp != Intersect || c in acc)
      then Some(Fresh(t, reg[t].components[c], FromOverridden))
      else Entry(acc, c)
    decreases |cs|
  {
    if cs != [] {
      var init := cs[..|cs| - 1];
      SweepThemeOverrideComponent(reg, step, base, t, init, acc, c);
      VisitOverrideComponent(reg, step, base, t, cs[|cs| - 1], SweepTheme(reg, step, base, t, init, acc), c);
      assert c in cs <==> c in init || c == cs[|cs| - 1];
    }
  }

  lemma {:induction false} SweepOverrideComponent(reg: Registry, step: Step, base: Generated, ts: seq<string>, acc: Generated, c: string)
    requires forall t :: t in ts ==> Reaches(reg, step, t)
    requires step.Override? && step.opt.matchBy == Some(ByComponent) && (step.opt.setOp != Difference || c !in base)
    ensures Entry(Sweep(reg, step, base, ts, acc), c) ==
      match LastOfferer(reg, step, ts, c)
      case Some(t) =>
        if step.opt.setOp != Intersect || c in acc then Some(Fresh(t, reg[t].components[c], FromOverridden))
        else Entry(acc, c)
      case None => Entry(acc, c)
    decreases |ts|
  {
    if ts != [] {
      var init := ts[..|ts| - 1];
      var t := ts[|ts| - 1];
      assert forall u :: u in init ==> u in ts;
      SweepOverrideComponent(reg, step, base, init, acc, c);
      CandidatesOffer(reg, step, t, c);
      if t in reg {
        SweepThemeOverrideComponent(reg, step, base, t, Candidates(reg, step, t), Sweep(reg, step, base, init, acc), c);
      }
    }
  }

  /** An `overridden` with match 'component' and type 'all' or
      'intersect': a component some tail theme offers is replaced whole by
      the modes of the last such theme, each at priority 1 (for
      'intersect' only when the component was already present); every
      other component is left as it was. */
  lemma OverrideComponentLastWriter(reg: Registry, st: State, step: Step, c: string)
    requires step.Override? && step.opt.matchBy == Some(ByComponent) && step.opt.setOp != Difference
    requires forall t :: t in Tail(st.themes) ==> Reaches(reg, step, t)
    ensures Entry(ApplyTask(reg, st, step).generated, c) ==
      match LastOfferer(reg, step, Tail(st.themes), c)
      case Some(t) =>
        if step.opt.setOp == All || c in st.generated then Some(Fresh(t, reg[t].components[c], FromOverridden))
        else Entry(st.generated, c)
      case None => Entry(st.generated, c)
  {
    SweepOverrideComponent(reg, step, st.generated, Tail(st.themes), st.generated, c);
  }

  // ---------------------------------------------------------------------
  // extended: every offering theme is inserted on top, in order

  /** The bucket at (c, m) after every theme of `ts` that offers that mode
      has been inserted there in turn, starting from `b`. */
  function InsertChain(reg: Registry, step: Step, ts: seq<string>, c: string, m: string, b: Option<Bucket>): (r: Option<Bucket>)
    ensures (b.None? || WellRanked(b.value)) ==> (r.None? || WellRanked(r.value))
    ensures r.None? <==> b.None? && LastModeOfferer(reg, step, ts, c, m).None?
  {
    if ts == [] then b
    else
      var t := ts[|ts| - 1];
      var prev := InsertChain(reg, step, ts[..|ts| - 1], c, m, b);
      if Offers(reg, step, t, c) && m in reg[t].components[c]
      then Some(Insert(prev, t, reg[t].components[c][m], OriginOf(step)))
      else prev
  }

  /** The extend visits that insert at (c, m) on top of the entry being
      built: type 'all'; type 'difference' with match 'component' at a
      component absent from the table the operation started from; and type
      'difference' with match 'mode' where that table has no bucket at
      (c, m). */
  predicate InsertsAt(step: Step, base: Generated, c: string, m: string) {
    && step.Extend?
    && (|| step.opt.setOp == All
        || (step.opt.setOp == Difference && step.opt.matchBy == Some(ByComponent) && c !in base)
        || (step.opt.setOp == Difference && step.opt.matchBy != Some(ByComponent) && Lookup(base, c, m).None?))
  }

  lemma VisitExtendAll(reg: Registry, step: Step, base: Generated, t: string, acc: Generated, c: string, m: string)
    requires t in reg && c in reg[t].components
    requires InsertsAt(step, base, c, m)
    ensures Lookup(Visit(reg, step, base, t, c, acc), c, m) ==
      if m in reg[t].components[c]
      then Some(Insert(Lookup(acc, c, m), t, reg[t].components[c][m], FromExtended))
      else Lookup(acc, c, m)
  {
    var modes := reg[t].components[c];
    var prior := if c in acc then acc[c] else map[];
    if step.opt.setOp == Difference && step.opt.matchBy != Some(ByComponent) {
      var keep := if c in base then Without(modes, base[c].Keys) else modes;
      var next := InsertAll(prior, t, keep, FromExtended);
      assert Entry(Visit(reg, step, base, t, c, acc), c) == (if next == map[] then None else Some(next));
      if m in modes {
        assert m in keep && keep[m] == modes[m];
        assert m in next;
      }
    } else {
      assert Entry(Visit(reg, step, base, t, c, acc), c) == Some(InsertAll(prior, t, modes, FromExtended));
    }
  }

  lemma SweepThemeExtendAll(reg: Registry, step: Step, base: Generated, t: string, acc: Generated, c: string, m: string)
    requires Reaches(reg, step, t)
    requires InsertsAt(step, base, c, m)
    requires step.opt.components.None? || Distinct(step.opt.components.value)
    ensures Lookup(SweepTheme(reg, step, base, t, Candidates(reg, step, t), acc), c, m) ==
      if Offers(reg, step, t, c) && m in reg[t].components[c]
      then Some(Insert(Lookup(acc, c, m), t, reg[t].components[c][m], FromExtended))
      else Lookup(acc, c, m)
  {
    var cs := Candidates(reg, step, t);
    var r := SweepTheme(reg, step, base, t, cs, acc);
    CandidatesOffer(reg, step, t, c);
    if Offers(reg, step, t, c) {
      assert Distinct(cs);
      SweepThemeDistinct(reg, step, base, t, cs, acc, c);
      VisitExtendAll(reg, step, base, t, acc, c, m);
      assert Entry(r, c) == Entry(Visit(reg, step, base, t, c, acc), c);
    } else {
      assert Entry(r, c) == Entry(acc, c);
    }
  }

  lemma {:induction false} SweepExtendAll(reg: Registry, step: Step, base: Generated, ts: seq<string>, acc: Generated, c: string, m: string)
    requires forall t :: t in ts ==> Reaches(reg, step, t)
    requires InsertsAt(step, base, c, m)
    requires step.opt.components.None? || Distinct(step.opt.components.value)
    ensures Lookup(Sweep(reg, step, base, ts, acc), c, m) == InsertChain(reg, step, ts, c, m, Lookup(acc, c, m))
    decreases |ts|
  {
    if ts != [] {
      var init := ts[..|ts| - 1];
      var t := ts[|ts| - 1];
      assert forall u :: u in init ==> u in ts;
      var mid := Sweep(reg, step, base, init, acc);
      SweepExtendAll(reg, step, base, init, acc, c, m);
      SweepThemeExtendAll(reg, step, base, t, mid, c, m);
    }
  }

  /** An `extended` of type 'all' (without a repeated component name):
      at every (component, mode), each tail theme that offers it is
      inserted in turn on top of the bucket already there. */
  lemma ExtendAllInserts(reg: Registry, st: State, step: Step, c: string, m: string)
    requires step.Extend? && step.opt.setOp == All
    requires step.opt.components.None? || Distinct(step.opt.components.value)
    requires forall t :: t in Tail(st.themes) ==> Reaches(reg, step, t)
    ensures Lookup(ApplyTask(reg, st, step).generated, c, m)
      == InsertChain(reg, step, Tail(st.themes), c, m, Lookup(st.generated, c, m))
  {
    SweepExtendAll(reg, step, st.generated, Tail(st.themes), st.generated, c, m);
  }

  /** Every theme that offers the location ends up in the bucket. */
  lemma {:induction false} InsertChainHolds(reg: Registry, step: Step, ts: seq<string>, c: string, m: string, b: Option<Bucket>, u: string)
    requires u in ts && Offers(reg, step, u, c) && m in reg[u].components[c]
    ensures InsertChain(reg, step, ts, c, m, b).Some?
    ensures u in InsertChain(reg, step, ts, c, m, b).value.records
    decreases |ts|
  {
    var init := ts[..|ts| - 1];
    if u != ts[|ts| - 1] {
      assert u in init by {
        var k :| 0 <= k < |ts| && ts[k] == u;
        assert init[k] == u;
      }
      InsertChainHolds(reg, step, init, c, m, b, u);
    }
  }

  /** Among distinct tail themes, one that comes later outranks one that
      comes earlier at every location both offer; the last one holds the
      top priority. */
  lemma {:induction false} InsertChainOrder(reg: Registry, step: Step, ts: seq<string>, c: string, m: string, b: Option<Bucket>, i: int, j: int)
    requires Distinct(ts) && 0 <= i < j < |ts|
    requires b.None? || WellRanked(b.value)
    requires Offers(reg, step, ts[i], c) && m in reg[ts[i]].components[c]
    requires Offers(reg, step, ts[j], c) && m in reg[ts[j]].components[c]
    ensures InsertChain(reg, step, ts, c, m, b).Some?
    ensures ts[i] in InsertChain(reg, step, ts, c, m, b).value.records
    ensures ts[j] in InsertChain(reg, step, ts, c, m, b).value.records
    ensures InsertChain(reg, step, ts, c, m, b).value.records[ts[i]].priority
          < InsertChain(reg, step, ts, c, m, b).value.records[ts[j]].priority
    decreases |ts|
  {
    var init := ts[..|ts| - 1];
    var last := ts[|ts| - 1];
    var u, w := ts[i], ts[j];
    assert Distinct(init) && init[i] == u;
    assert u != last;
    var prev := InsertChain(reg, step, init, c, m, b);
    if j == |ts| - 1 {
      InsertChainHolds(reg, step, init, c, m, b, u);
      var code := reg[last].components[c][m];
      assert InsertChain(reg, step, ts, c, m, b) == Some(Insert(prev, last, code, OriginOf(step)));
      assert prev.Some? && WellRanked(prev.value);
      InsertRaises(prev.value, last, code, OriginOf(step), u);
    } else {
      assert init[j] == w && w != last;
      InsertChainOrder(reg, step, init, c, m, b, i, j);
      if Offers(reg, step, last, c) && m in reg[last].components[c] {
        var code := reg[last].components[c][m];
        assert InsertChain(reg, step, ts, c, m, b) == Some(Insert(prev, last, code, OriginOf(step)));
      } else {
        assert InsertChain(reg, step, ts, c, m, b) == prev;
      }
    }
  }

  /** The inserted theme outranks every other theme of a well-ranked bucket. */
  lemma InsertRaises(b: Bucket, theme: string, code: string, from: Origin, u: string)
    requires WellRanked(b) && u in b.records && u != theme
    ensures u in Insert(Some(b), theme, code, from).records
    ensures Insert(Some(b), theme, code, from).records[u].priority
          < Insert(Some(b), theme, code, from).records[theme].priority
  {
  }

  /** An `extended` of type 'difference' with match 'component' builds an
      absent component from scratch: each tail theme that offers a mode is
      inserted in turn, starting from no bucket. */
  lemma ExtendDifferenceAddsAbsent(reg: Registry, st: State, step: Step, c: string, m: string)
    requires step.Extend? && step.opt.setOp == Difference && step.opt.matchBy == Some(ByComponent)
    requires step.opt.components.None? || Distinct(step.opt.components.value)
    requires forall t :: t in Tail(st.themes) ==> Reaches(reg, step, t)
    requires c !in st.generated
    ensures Lookup(ApplyTask(reg, st, step).generated, c, m)
      == InsertChain(reg, step, Tail(st.themes), c, m, None)
  {
    var g := st.generated;
    var styles := Sweep(reg, step, g, Tail(st.themes), map[]);
    SweepExtendAll(reg, step, g, Tail(st.themes), map[], c, m);
    assert Lookup(map[], c, m) == None;
  }

  /** An `extended` of type 'difference' with match 'mode' builds each
      (component, mode) absent before from scratch: each tail theme that
      offers it is inserted in turn, starting from no bucket. */
  lemma ExtendDifferenceModeAddsAbsent(reg: Registry, st: State, step: Step, c: string, m: string)
    requires step.Extend? && step.opt.setOp == Difference && step.opt.matchBy == Some(ByMode)
    requires step.opt.components.None? || Distinct(step.opt.components.value)
    requires forall t :: t in Tail(st.themes) ==> Reaches(reg, step, t)
    requires Lookup(st.generated, c, m).None?
    ensures Lookup(ApplyTask(reg, st, step).generated, c, m)
      == InsertChain(reg, step, Tail(st.themes), c, m, None)
  {
    var g := st.generated;
    var styles := Sweep(reg, step, g, Tail(st.themes), map[]);
    SweepExtendAll(reg, step, g, Tail(st.themes), map[], c, m);
    assert Lookup(map[], c, m) == None;
    CopyFillsAbsentMode(g, styles, c, m);
  }

  /** An `overridden` of type 'difference' with match 'component': a
      component absent before takes the modes of the last tail theme that
      offers it, each in a single-record bucket, and stays absent when no
      tail theme offers it. */
  lemma OverrideDifferenceAddsAbsent(reg: Registry, st: State, step: Step, c: string)
    requires step.Override? && step.opt.setOp == Difference && step.opt.matchBy == Some(ByComponent)
    requires forall t :: t in Tail(st.themes) ==> Reaches(reg, step, t)
    requires c !in st.generated
    ensures Entry(ApplyTask(reg, st, step).generated, c) ==
      match LastOfferer(reg, step, Tail(st.themes), c)
      case Some(t) => Some(Fresh(t, reg[t].components[c], FromOverridden))
      case None => None
  {
    var g := st.generated;
    var styles := Sweep(reg, step, g, Tail(st.themes), map[]);
    SweepOverrideComponent(reg, step, g, Tail(st.themes), map[], c);
    assert Entry(g + styles, c) == Entry(styles, c);
  }

  /** An `overridden` of type 'difference' with match 'mode': a
      (component, mode) absent before holds a single priority-1 record of
      the last tail theme that offers it, and stays absent when none does. */
  lemma OverrideDifferenceModeAddsAbsent(reg: Registry, st: State, step: Step, c: string, m: string)
    requires step.Override? && step.opt.setOp == Difference && step.opt.matchBy == Some(ByMode)
    requires forall t :: t in Tail(st.themes) ==> Reaches(reg, step, t)
    requires Lookup(st.generated, c, m).None?
    ensures Lookup(ApplyTask(reg, st, step).generated, c, m) ==
      match LastModeOfferer(reg, step, Tail(st.themes), c, m)
      case Some(t) => Some(Single(t, reg[t].components[c][m], FromOverridden))
      case None => None
  {
    var g := st.generated;
    var styles := Sweep(reg, step, g, Tail(st.themes), map[]);
    SweepOverrideMode(reg, step, g, Tail(st.themes), map[], c, m);
    assert Lookup(map[], c, m) == None;
    CopyFillsAbsentMode(g, styles, c, m);
  }

  /** Copying with match 'mode' fills a location the table lacks from the
      scratch table. */
  lemma CopyFillsAbsentMode(g: Generated, styles: Generated, c: string, m: string)
    requires Lookup(g, c, m).None?
    ensures Lookup(Copy(g, styles, Some(ByMode)), c, m) == Lookup(styles, c, m)
  {
    var r := Copy(g, styles, Some(ByMode));
    if c in styles && m in styles[c] {
      assert c in r;
    }
  }

  /** Base theme X seeded by `themes`, then an `extended` of type 'all'
      from the next theme Y: a location both define holds X at priority 1
      and Y at priority 2, with maxPriority 2. */
  lemma ThemesThenExtend(reg: Registry, st: State, x: string, y: string, step: Step, c: string, m: string)
    requires x in reg && y in reg && x != y
    requires c in reg[x].components && m in reg[x].components[c]
    requires c in reg[y].components && m in reg[y].components[c]
    requires Lookup(st.generated, c, m).None?
    requires step.Extend? && step.opt.setOp == All && step.opt.components.None?
    ensures var b := Lookup(ApplyTask(reg, ThemesTask(reg, st, [x, y]), step).generated, c, m);
      && b.Some?
      && b.value.maxPriority == 2
      && b.value.records.Keys == {x, y}
      && b.value.records[x] == Record(reg[x].components[c][m], FromThemes, 1)
      && b.value.records[y] == Record(reg[y].components[c][m], FromExtended, 2)
  {
    var seeded := ThemesTask(reg, st, [x, y]);
    ThemesSeedsBase(reg, st, [x, y], c, m);
    assert Tail(seeded.themes) == [y];
    ExtendAllInserts(reg, seeded, step, c, m);
    assert [y][..0] == [];
  }
}
