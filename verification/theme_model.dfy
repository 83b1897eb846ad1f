/** Data model of the theme composition engine: the read-only style registry
    (theme -> component -> mode -> style text), the generated table
    (component -> mode -> bucket of ranked contributions) and the single
    bucket update every ranking operation goes through. */
module ThemeModel {
  import opened Wrappers
  import opened Strings

  /** Which operation wrote a contribution (the `_from` field). */
  datatype Origin = FromThemes | FromOverridden | FromExtended

  /** One theme's contribution at a (component, mode) location. */
  datatype Record = Record(code: string, from: Origin, priority: int)

  /** All contributions at one (component, mode) location, keyed by theme,
      with the highest priority handed out so far (`_max_priority`). */
  datatype Bucket = Bucket(maxPriority: int, records: map<string, Record>)

  type Modes = map<string, Bucket>
  type Generated = map<string, Modes>

  /** The runner's state: the active theme list and the generated table. */
  datatype State = State(themes: seq<string>, generated: Generated)

  /** One theme's styles: component -> mode -> style text, with the
      components in the order the loader enumerated them. */
  datatype ThemeStyles = ThemeStyles(order: seq<string>, components: map<string, map<string, string>>)

  /** The component order lists each component exactly once. */
  ghost predicate Listed(t: ThemeStyles) {
    && Distinct(t.order)
    && forall c :: c in t.components <==> c in t.order
  }

  type Theme = t: ThemeStyles | Listed(t) witness ThemeStyles([], map[])

  type Registry = map<string, Theme>

  /** A fresh bucket holding one record at priority 1. */
  function Single(theme: string, code: string, from: Origin): (b: Bucket)
    ensures WellRanked(b)
    ensures b.maxPriority == 1 && b.records.Keys == {theme}
    ensures b.records[theme] == Record(code, from, 1)
  {
    var b := Bucket(1, map[theme := Record(code, from, 1)]);
    assert b.records[theme].priority == b.maxPriority;
    b
  }

  /** The ranking invariant of a bucket: every priority lies in
      1..maxPriority, no two themes share a priority, and maxPriority is
      the priority of some record. */
  ghost predicate WellRanked(b: Bucket) {
    && b.maxPriority >= 1
    && (forall t :: t in b.records ==> 1 <= b.records[t].priority <= b.maxPriority)
    && (forall t, u :: t in b.records && u in b.records && t != u ==> b.records[t].priority != b.records[u].priority)
    && (exists t :: t in b.records && b.records[t].priority == b.maxPriority)
  }

  /** Some theme of the bucket holds priority `p`. */
  ghost predicate HasPriority(b: Bucket, p: int) {
    exists t :: t in b.records && b.records[t].priority == p
  }

  /** The priorities of a bucket are exactly 1..maxPriority. */
  ghost predicate Contiguous(b: Bucket) {
    forall p :: 1 <= p <= b.maxPriority <==> HasPriority(b, p)
  }

  ghost predicate RankedModes(ms: Modes) {
    forall m :: m in ms ==> WellRanked(ms[m])
  }

  ghost predicate Ranked(g: Generated) {
    forall c :: c in g ==> RankedModes(g[c])
  }

  /** Adding a theme's contribution at one location (`insert` of the
      extend helper, and the seeding step of `themes`): an absent bucket
      becomes a fresh priority-1 bucket; an existing one gets the theme at
      maxPriority + 1, overwriting any earlier record of that theme. */
  function Insert(b: Option<Bucket>, theme: string, code: string, from: Origin): (r: Bucket)
    ensures b.None? ==> r == Single(theme, code, from)
    ensures b.Some? ==> r.maxPriority == b.value.maxPriority + 1
    ensures b.Some? ==> r.records.Keys == b.value.records.Keys + {theme}
    ensures b.Some? ==> r.records[theme] == Record(code, from, b.value.maxPriority + 1)
    ensures b.Some? ==> forall t :: t in b.value.records && t != theme ==> r.records[t] == b.value.records[t]
    ensures (b.None? || WellRanked(b.value)) ==> WellRanked(r)
  {
    match b
    case None => Single(theme, code, from)
    case Some(prev) =>
      var top := prev.maxPriority + 1;
      var r := Bucket(top, prev.records[theme := Record(code, from, top)]);
      assert r.records[theme].priority == r.maxPriority;
      r
  }

  /** A bucket of the theme's style for every mode it offers (the body an
      `overridden` write puts at each location). */
  function Fresh(theme: string, modes: map<string, string>, from: Origin): (ms: Modes)
    ensures ms.Keys == modes.Keys
    ensures forall m :: m in ms ==> ms[m] == Single(theme, modes[m], from)
    ensures RankedModes(ms)
  {
    map m | m in modes :: Single(theme, modes[m], from)
  }

  /** The entry of `ms` at `m`, if any. */
  function At(ms: Modes, m: string): Option<Bucket> {
    if m in ms then Some(ms[m]) else None
  }

  /** `insert` for every mode the theme offers, on one component's modes. */
  function InsertAll(prior: Modes, theme: string, modes: map<string, string>, from: Origin): (ms: Modes)
    ensures ms.Keys == prior.Keys + modes.Keys
    ensures forall m :: m in modes ==> ms[m] == Insert(At(prior, m), theme, modes[m], from)
    ensures forall m :: m in prior && m !in modes ==> ms[m] == prior[m]
  {
    map m | m in prior.Keys + modes.Keys ::
      if m in modes then Insert(At(prior, m), theme, modes[m], from) else prior[m]
  }

  /** Inserting into well-ranked buckets keeps them well ranked. */
  lemma InsertAllRanked(prior: Modes, theme: string, modes: map<string, string>, from: Origin)
    ensures RankedModes(prior) ==> RankedModes(InsertAll(prior, theme, modes, from))
  {
    var ms := InsertAll(prior, theme, modes, from);
    if RankedModes(prior) {
      forall m | m in ms ensures WellRanked(ms[m]) {
        if m in modes {
          var b := At(prior, m);
          assert b.Some? ==> WellRanked(b.value);
        }
      }
    }
  }
}
