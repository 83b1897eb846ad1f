/** The file-name convention of the theme loader: a style file
    `<component>.<mode>.css` (or `<component>.css` for the default mode). */
module ThemeFiles {
  import opened Wrappers
  import opened Strings

  /** `getMode` on the pieces of the name split at '.'. */
  function ModeOf(items: seq<string>): Option<string> {
    if |items| < 2 then None
    else if |items| == 2 then Some("default")
    else Some(Join(items[1..|items| - 1], '.'))
  }

  /** `getMode`: the mode a style file name stands for. A name without a
      '.' has none; a name with exactly one '.' is the 'default' mode;
      otherwise the mode is everything between the first and the last '.'. */
  function GetMode(f: string): (r: Option<string>)
    ensures r.None? <==> '.' !in f
    ensures Count(f, '.') == 1 ==> r == Some("default")
  {
    SplitSize(f, '.');
    CountZero(f, '.');
    ModeOf(Split(f, '.'))
  }

  /** A name `<p>.<mid>.<q>` whose outer parts hold no '.' has mode `mid`,
      whatever dots `mid` itself holds. */
  lemma GetModeBetween(p: string, mid: string, q: string)
    requires '.' !in p && '.' !in q
    ensures GetMode(p + ['.'] + mid + ['.'] + q) == Some(mid)
  {
    var f := p + ['.'] + mid + ['.'] + q;
    var inner := Split(mid, '.');
    var items := [p] + inner + [q];
    assert Split(f, '.') == items by {
      assert f == p + ['.'] + (mid + ['.'] + q);
      SplitConcat(p, mid + ['.'] + q, '.');
      SplitConcat(mid, q, '.');
    }
    assert items[1..|items| - 1] == inner;
    JoinSplit(mid, '.');
    assert ModeOf(items) == Some(mid);
  }

  /** A name `<p>.<q>` whose parts hold no '.' is the default mode. */
  lemma GetModeDefault(p: string, q: string)
    requires '.' !in p && '.' !in q
    ensures GetMode(p + ['.'] + q) == Some("default")
  {
    SplitConcat(p, q, '.');
  }

  /** Every name with at least two dots is its first piece, a dot, its
      mode, a dot and its last piece, and the outer pieces hold no '.'. */
  lemma GetModeSplits(f: string)
    requires Count(f, '.') >= 2
    ensures GetMode(f).Some?
    ensures '.' !in Split(f, '.')[0] && '.' !in Split(f, '.')[|Split(f, '.')| - 1]
    ensures f == Split(f, '.')[0] + ['.'] + GetMode(f).value + ['.'] + Split(f, '.')[|Split(f, '.')| - 1]
  {
    var items := Split(f, '.');
    var n := |items|;
    SplitSize(f, '.');
    var mid := Join(items[1..n - 1], '.');
    assert GetMode(f) == Some(mid);
    assert f == items[0] + ['.'] + mid + ['.'] + items[n - 1] by {
      JoinSplit(f, '.');
      JoinOuter(items, '.');
    }
    SplitPiecesClean(f, '.');
  }

}
