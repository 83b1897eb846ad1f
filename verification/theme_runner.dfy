/** The theme runner: the `themes`, `reset`, `overridden` and `extended`
    tasks, the keyword dispatch of `task`, and the fold of
    `ThemeGenerator.run` over the command records.

    Every task walks the tail themes in order and, for each theme, its
    candidate components in order (the `components` option when given,
    else the theme's own components). A visit of one component reads and
    writes only that component's entry, so the visit is written as a
    function `VisitAt` from the old entry to the new one. */
module ThemeRunner {
  import opened Wrappers
  import opened Strings
  import opened Json
  import opened ThemeModel
  import opened ThemeOptions

  /** What the component loop does: seed from the base theme (`themes`),
      or an override/extend with its decoded options. */
  datatype Step = Seed | Override(opt: Options) | Extend(opt: Options)

  /** The outcome of a task or a run: the final state, or an uncaught
      TypeError (which aborts `ThemeGenerator.run`). */
  datatype Outcome = Completed(state: State) | Threw

  function OriginOf(step: Step): Origin {
    match step
    case Seed => FromThemes
    case Override(_) => FromOverridden
    case Extend(_) => FromExtended
  }

  predicate IsIntersect(step: Step) {
    !step.Seed? && step.opt.setOp == Intersect
  }

  predicate IsDifference(step: Step) {
    !step.Seed? && step.opt.setOp == Difference
  }

  /** The theme's candidate components can be listed without a crash:
      the theme is registered, or the `components` option is an empty
      array so that the registry is never consulted. */
  predicate Reaches(reg: Registry, step: Step, t: string) {
    t in reg || (!step.Seed? && step.opt.components == Some([]))
  }

  /** `option.components ? option.components : Object.keys(styles[theme])`. */
  function Candidates(reg: Registry, step: Step, t: string): (cs: seq<string>)
    requires Reaches(reg, step, t)
    ensures forall k :: k in cs && t in reg && k in reg[t].components ==> Offers(reg, step, t, k)
  {
    if !step.Seed? && step.opt.components.Some? then step.opt.components.value else reg[t].order
  }

  /** Theme `t` offers component `c` to the step: it is a candidate and the
      theme defines it. */
  predicate Offers(reg: Registry, step: Step, t: string, c: string) {
    && t in reg
    && c in reg[t].components
    && (step.Seed? || step.opt.components.None? || c in step.opt.components.value)
  }

  /** Some theme of `ts` offers `c`. */
  predicate OfferedBy(reg: Registry, step: Step, ts: seq<string>, c: string) {
    exists t :: t in ts && Offers(reg, step, t, c)
  }

  /** The entry of the table at component `c`, if any. */
  function Entry(g: Generated, c: string): Option<Modes> {
    if c in g then Some(g[c]) else None
  }

  /** Store `e` as the entry of `c`; None deletes the component. */
  function Put(g: Generated, c: string, e: Option<Modes>): (r: Generated)
    ensures Entry(r, c) == e
    ensures forall k :: k != c ==> Entry(r, k) == Entry(g, k)
  {
    if e.Some? then g[c := e.value] else g - {c}
  }

  ghost predicate RankedEntry(e: Option<Modes>) {
    e.Some? ==> RankedModes(e.value)
  }

  function Restrict(modes: map<string, string>, keys: set<string>): (r: map<string, string>)
    ensures r.Keys == modes.Keys * keys
    ensures forall m :: m in r ==> r[m] == modes[m]
  {
    map m | m in modes && m in keys :: modes[m]
  }

  function Without(modes: map<string, string>, keys: set<string>): (r: map<string, string>)
    ensures r.Keys == modes.Keys - keys
    ensures forall m :: m in r ==> r[m] == modes[m]
  {
    map m | m in modes && m !in keys :: modes[m]
  }

  /** Write theme `t`'s styles for the modes of `keep` over `prior`: a fresh
      priority-1 bucket per mode for an override, an `insert` per mode
      otherwise. */
  function Contribute(step: Step, t: string, prior: Modes, keep: map<string, string>): (ms: Modes)
    ensures ms.Keys == prior.Keys + keep.Keys
    ensures RankedModes(prior) ==> RankedModes(ms)
    ensures forall m :: m in prior && m !in keep ==> ms[m] == prior[m]
  {
    if step.Override? then prior + Fresh(t, keep, FromOverridden)
    else
      InsertAllRanked(prior, t, keep, OriginOf(step));
      InsertAll(prior, t, keep, OriginOf(step))
  }

  /** One iteration of a task's component loop, on the entry of component
      `c`. `base` is the table before the operation started: `difference`
      tests presence against it while writing into a separate scratch
      table; the other types test and write the live table. */
  function VisitAt(reg: Registry, step: Step, base: Generated, t: string, c: string, e: Option<Modes>): (r: Option<Modes>)
    requires t in reg
    ensures c !in reg[t].components ==> r == e
    ensures RankedEntry(e) ==> RankedEntry(r)
    ensures IsIntersect(step) ==> (r.Some? <==> e.Some?)
    ensures IsIntersect(step) && step.opt.matchBy == Some(ByMode) && e.Some? ==> r.Some? && r.value.Keys == e.value.Keys
    ensures IsDifference(step) && step.opt.matchBy == Some(ByComponent) && c in base ==> r == e
  {
    if c !in reg[t].components then e
    else
      var modes := reg[t].components[c];
      var prior := if e.Some? then e.value else map[];
      if step.Seed? then Some(Contribute(step, t, prior, modes))
      else
        var byComponent := step.opt.matchBy == Some(ByComponent);
        match step.opt.setOp
        case Intersect =>
          if e.None? then None
          else if byComponent then Some(Contribute(step, t, if step.Override? then map[] else prior, modes))
          else Some(Contribute(step, t, prior, Restrict(modes, prior.Keys)))
        case Difference =>
          if byComponent then
            if c in base then e
            else Some(Contribute(step, t, if step.Override? then map[] else prior, modes))
          else
            var keep := if c in base then Without(modes, base[c].Keys) else modes;
            var next := Contribute(step, t, prior, keep);
            if next == map[] then None else Some(next)
        case All =>
          Some(Contribute(step, t, if step.Override? && byComponent then map[] else prior, modes))
  }

  function Visit(reg: Registry, step: Step, base: Generated, t: string, c: string, acc: Generated): (r: Generated)
    requires t in reg
  {
    Put(acc, c, VisitAt(reg, step, base, t, c, Entry(acc, c)))
  }

  /** The component loop of one theme, over the candidate list `cs`. */
  function SweepTheme(reg: Registry, step: Step, base: Generated, t: string, cs: seq<string>, acc: Generated): (r: Generated)
    requires cs == [] || t in reg
    ensures forall k :: (k !in cs || t !in reg || k !in reg[t].components) ==> Entry(r, k) == Entry(acc, k)
    decreases |cs|
  {
    if cs == [] then acc
    else
      var mid := SweepTheme(reg, step, base, t, cs[..|cs| - 1], acc);
      assert forall k :: k in cs[..|cs| - 1] ==> k in cs;
      Visit(reg, step, base, t, cs[|cs| - 1], mid)
  }

  /** The theme loop of a task over the tail themes `ts`, in order. */
  function Sweep(reg: Registry, step: Step, base: Generated, ts: seq<string>, acc: Generated): (r: Generated)
    requires forall t :: t in ts ==> Reaches(reg, step, t)
    ensures forall k :: !OfferedBy(reg, step, ts, k) ==> Entry(r, k) == Entry(acc, k)
    decreases |ts|
  {
    if ts == [] then acc
    else
      var init := ts[..|ts| - 1];
      var t := ts[|ts| - 1];
      assert forall u :: u in init ==> u in ts;
      var mid := Sweep(reg, step, base, init, acc);
      var r := SweepTheme(reg, step, base, t, Candidates(reg, step, t), mid);
      assert forall k :: !OfferedBy(reg, step, ts, k) ==> Entry(r, k) == Entry(acc, k) by {
        forall k | !OfferedBy(reg, step, ts, k) ensures Entry(r, k) == Entry(acc, k) {
          assert !OfferedBy(reg, step, init, k);
          assert !Offers(reg, step, t, k);
        }
      }
      r
  }

  /** `_helpers.copy`: merge a `difference` scratch table into the live
      table, whole components for match 'component', absent modes only for
      match 'mode'. */
  function Copy(g: Generated, styles: Generated, matchBy: Option<Match>): (r: Generated)
    ensures Ranked(g) && Ranked(styles) ==> Ranked(r)
  {
    if matchBy == Some(ByComponent) then g + styles
    else if matchBy == Some(ByMode) then
      map c | c in g.Keys + (set k | k in styles && styles[k] != map[]) ::
        if c in styles then (if c in g then styles[c] + g[c] else styles[c]) else g[c]
    else g
  }

  /** `this._themes.slice(1)`. */
  function Tail(themes: seq<string>): seq<string> {
    if themes == [] then [] else themes[1..]
  }

  /** `_themesTask` on a valid list whose base theme is registered. */
  function ThemesTask(reg: Registry, st: State, themes: seq<string>): (r: State)
    requires |themes| > 0 && themes[0] in reg
    ensures r.themes == themes
  {
    var base := themes[0];
    State(themes, SweepTheme(reg, Seed, st.generated, base, reg[base].order, st.generated))
  }

  /** `_overrideTask` / `_extendTask` on a valid payload. */
  function ApplyTask(reg: Registry, st: State, step: Step): (r: State)
    requires !step.Seed?
    requires forall t :: t in Tail(st.themes) ==> Reaches(reg, step, t)
    ensures r.themes == st.themes
  {
    var g := st.generated;
    if step.opt.setOp == Difference then
      State(st.themes, Copy(g, Sweep(reg, step, g, Tail(st.themes), map[]), step.opt.matchBy))
    else
      State(st.themes, Sweep(reg, step, g, Tail(st.themes), g))
  }

  function KindOf(key: string): Kind {
    if key == "overridden" then OverrideKind else ExtendKind
  }

  function StepOf(kind: Kind, o: Options): Step {
    if kind == OverrideKind then Override(o) else Extend(o)
  }

  /** `task(command, option)`: dispatch one key of a command record.
      Unknown keys and `reset` (an unimplemented stub) change nothing; an
      invalid payload is skipped; the crash paths of the JavaScript code
      (an empty or unregistered base theme list, a null payload, an
      unregistered tail theme whose components must be listed) throw. */
  function Task(reg: Registry, st: State, key: string, value: Json): (r: Outcome)
    ensures key !in {"themes", "overridden", "extended"} ==> r == Completed(st)
    ensures key == "themes" && ThemeList(value).None? ==> r == Completed(st)
    ensures key == "themes" && ThemeList(value).Some? ==>
      r == (if ThemeList(value).value == [] || ThemeList(value).value[0] !in reg then Threw
            else Completed(ThemesTask(reg, st, ThemeList(value).value)))
    ensures key in {"overridden", "extended"} && !value.JNull? && !Check(KindOf(key), value) ==> r == Completed(st)
    ensures key in {"overridden", "extended"} && value.JNull? ==> r == Threw
    ensures key in {"overridden", "extended"} && !value.JNull? && Check(KindOf(key), value) ==>
      var step := StepOf(KindOf(key), Decode(KindOf(key), value));
      r == (if forall t :: t in Tail(st.themes) ==> Reaches(reg, step, t) then Completed(ApplyTask(reg, st, step)) else Threw)
    ensures r.Completed? && key != "themes" ==> r.state.themes == st.themes
    ensures r.Completed? && key == "themes" && ThemeList(value).Some? ==> r.state.themes == ThemeList(value).value
  {
    if key == "themes" then
      match ThemeList(value)
      case None => Completed(st)
      case Some(themes) =>
        if |themes| == 0 || themes[0] !in reg then Threw
        else Completed(ThemesTask(reg, st, themes))
    else if key == "overridden" || key == "extended" then
      var kind := KindOf(key);
      if value.JNull? then Threw
      else if !Check(kind, value) then Completed(st)
      else
        var step := StepOf(kind, Decode(kind, value));
        if exists t :: t in Tail(st.themes) && !Reaches(reg, step, t) then Threw
        else Completed(ApplyTask(reg, st, step))
    else
      // "reset" runs an empty stub; any other key matches no case
      Completed(st)
  }

  /** Every key of one command record, in order (`Object.keys(command)`);
      the value of each key is the record's own. */
  function RunFields(reg: Registry, st: State, fields: seq<(string, Json)>): (r: Outcome)
    ensures (forall i :: 0 <= i < |fields| ==> fields[i].0 !in {"themes", "overridden", "extended"}) ==> r == Completed(st)
    ensures r.Completed? && (forall i :: 0 <= i < |fields| ==> fields[i].0 != "themes") ==> r.state.themes == st.themes
    decreases |fields|
  {
    if fields == [] then Completed(st)
    else
      match Task(reg, st, fields[0].0, fields[0].1)
      case Threw => Threw
      case Completed(next) => RunFields(reg, next, fields[1..])
  }

  /** One command record: `Object.keys(null)` throws; a string, number,
      boolean or array record has no keyword keys and does nothing. */
  function RunCommand(reg: Registry, st: State, command: Json): (r: Outcome)
    ensures command.JNull? ==> r == Threw
    ensures !command.JNull? && !command.JObj? ==> r == Completed(st)
    ensures r.Completed? && command.JObj? && (forall i :: 0 <= i < |command.fields| ==> command.fields[i].0 != "themes") ==>
      r.state.themes == st.themes
  {
    match command
    case JNull => Threw
    case JObj(fields) => RunFields(reg, st, fields)
    case _ => Completed(st)
  }

  /** The command fold from state `st`; the first throw aborts the rest. */
  function RunFrom(reg: Registry, st: State, commands: seq<Json>): (r: Outcome)
    ensures r.Completed? ==> forall i :: 0 <= i < |commands| ==> !commands[i].JNull?
    ensures (forall i :: 0 <= i < |commands| ==> !commands[i].JNull? && !commands[i].JObj?) ==> r == Completed(st)
    decreases |commands|
  {
    if commands == [] then Completed(st)
    else
      match RunCommand(reg, st, commands[0])
      case Threw => Threw
      case Completed(next) => RunFrom(reg, next, commands[1..])
  }

  /** The initial runner state: no themes, an empty table. */
  const Initial: State := State([], map[])

  /** The command fold of `ThemeGenerator.run` from a fresh runner. */
  function Run(reg: Registry, commands: seq<Json>): (r: Outcome)
    ensures commands == [] ==> r == Completed(Initial)
    ensures r.Completed? ==> forall i :: 0 <= i < |commands| ==> !commands[i].JNull?
  {
    RunFrom(reg, Initial, commands)
  }

  /** The keys of one record run strictly in order: running `a + b` is
      running `a` and then, if it completes, `b`. */
  lemma {:induction false} RunFieldsAppend(reg: Registry, st: State, a: seq<(string, Json)>, b: seq<(string, Json)>)
    ensures RunFields(reg, st, a + b) ==
      match RunFields(reg, st, a)
      case Threw => Threw
      case Completed(mid) => RunFields(reg, mid, b)
    decreases |a|
  {
    if a == [] {
      assert a + b == b;
    } else {
      assert (a + b)[0] == a[0] && (a + b)[1..] == a[1..] + b;
      match Task(reg, st, a[0].0, a[0].1)
      case Threw =>
      case Completed(next) => RunFieldsAppend(reg, next, a[1..], b);
    }
  }
}
