/** The string helpers of the UI utilities: `format`, the selector and the
    `chapter=` history URL of `scrollToElement`, and the ancestor search of
    `closestParentElement`. */
module Utils {
  import opened Wrappers
  import opened Strings

  /** A string argument as JavaScript sees it: `undefined`/`null`, or a string. */
  type Arg = Option<string>

  /** JavaScript truthiness of a string argument. */
  predicate Given(a: Arg) {
    a.Some? && a.value != ""
  }

  /** `format(first, middle, last)`: the first part (or nothing), then a
      space and the middle part if it is non-empty, then a space and the
      last part if it is non-empty. */
  function Format(first: Arg, middle: Arg, last: Arg): (r: string)
    ensures |r| == (if first.Some? then |first.value| else 0)
                 + (if Given(middle) then |middle.value| + 1 else 0)
                 + (if Given(last) then |last.value| + 1 else 0)
    ensures first.Some? && !Given(middle) && !Given(last) ==> r == first.value
    ensures !Given(first) && (Given(middle) || Given(last)) ==> r[0] == ' '
  {
    (if first.Some? then first.value else "")
      + (if Given(middle) then " " + middle.value else "")
      + (if Given(last) then " " + last.value else "")
  }

  /** Three space-free non-empty parts come back from the formatted text
      by splitting on spaces. */
  lemma FormatSplits(first: string, middle: string, last: string)
    requires first != "" && middle != "" && last != ""
    requires ' ' !in first && ' ' !in middle && ' ' !in last
    ensures Split(Format(Some(first), Some(middle), Some(last)), ' ') == [first, middle, last]
  {
    var r := Format(Some(first), Some(middle), Some(last));
    assert r == first + [' '] + (middle + [' '] + last);
    SplitConcat(first, middle + [' '] + last, ' ');
    SplitConcat(middle, last, ' ');
  }

  /** The characters `scrollToElement` turns into '-'. */
  predicate Replaced(c: char) {
    c == ' ' || c == ':' || c == '/' || c == '.'
  }

  /** The element id selector: every space, ':', '/' and '.' becomes '-',
      then the text is lower-cased. */
  function Selector(elementId: string): (r: string)
    ensures |r| == |elementId|
    ensures forall i :: 0 <= i < |r| ==> !Replaced(r[i])
    ensures forall i :: 0 <= i < |r| ==> Replaced(elementId[i]) ==> r[i] == '-'
    ensures forall i :: 0 <= i < |r| ==> !Replaced(elementId[i]) ==> r[i] == LowerChar(elementId[i])
  {
    Lower(seq(|elementId|, i requires 0 <= i < |elementId| => if Replaced(elementId[i]) then '-' else elementId[i]))
  }

  /** A selector is already normalised. */
  lemma SelectorIdempotent(elementId: string)
    ensures Selector(Selector(elementId)) == Selector(elementId)
  {
    var s := Selector(elementId);
    var t := Selector(s);
    forall i | 0 <= i < |s| ensures t[i] == s[i] {
      assert LowerChar(s[i]) == s[i] by {
        var c := elementId[i];
        var d := if Replaced(c) then '-' else c;
        assert s[i] == LowerChar(d);
      }
    }
  }

  const Chapter: string := "chapter="

  /** The history URL `scrollToElement` pushes for `href` and `selector`.
      With a "chapter=" in the href, the base is the text before its first
      occurrence with the last character split off as the operator (an
      empty text keeps '?'); otherwise the base is the whole href and the
      operator is '&' when a '?' occurs after the first character, else '?'. */
  function ChapterUrl(href: string, selector: string): (r: string)
    ensures Find(href, Chapter).None? && '?' in href && FirstIndex(href, '?') > 0 ==> r == href + "&" + Chapter + selector
    ensures Find(href, Chapter).None? && !('?' in href && FirstIndex(href, '?') > 0) ==> r == href + "?" + Chapter + selector
    ensures Find(href, Chapter).Some? && Find(href, Chapter).value > 0 ==> r == href[..Find(href, Chapter).value] + Chapter + selector
    ensures Find(href, Chapter) == Some(0) ==> r == "?" + Chapter + selector
  {
    match Find(href, Chapter)
    case Some(i) =>
      if i > 0 then href[..i - 1] + [href[i - 1]] + Chapter + selector
      else "?" + Chapter + selector
    case None => href + [Operator(href)] + Chapter + selector
  }

  /** The query operator for an href without a chapter: '&' when a '?'
      occurs after the first character, else '?'. */
  function Operator(href: string): (op: char)
    ensures op == '&' || op == '?'
  {
    if '?' in href && FirstIndex(href, '?') > 0 then '&' else '?'
  }

  /** The operator characters never begin, or occur in, "chapter=". */
  lemma NotInChapter(op: char)
    requires op == '&' || op == '?'
    ensures op !in Chapter
  {
  }

  /** The first "chapter=" of `pre + Chapter + rest` is the one after
      `pre`, when `pre` has none and ends in a character foreign to it. */
  lemma {:induction false} FindAfter(pre: string, rest: string)
    requires Find(pre, Chapter).None?
    requires pre != [] && pre[|pre| - 1] !in Chapter
    ensures Find(pre + Chapter + rest, Chapter) == Some(|pre|)
  {
    var s := pre + Chapter + rest;
    assert s[|pre|..|pre| + |Chapter|] == Chapter;
    forall k | 0 <= k < |pre| ensures !OccursAt(s, Chapter, k) {
      if k + |Chapter| <= |pre| {
        assert s[k..k + |Chapter|] == pre[k..k + |Chapter|];
        assert !OccursAt(pre, Chapter, k);
      } else {
        var j := |pre| - 1 - k;
        assert s[k..k + |Chapter|][j] == pre[|pre| - 1];
      }
    }
    FindIs(s, Chapter, |pre|);
  }

  /** Navigating to a second chapter replaces the first: the URL built on
      top of a chapter URL is the one built on the original href. */
  lemma ChapterReplaces(href: string, s1: string, s2: string)
    ensures ChapterUrl(ChapterUrl(href, s1), s2) == ChapterUrl(href, s2)
  {
    match Find(href, Chapter)
    case Some(i) =>
      if i > 0 {
        ChapterKept(href, i, s1);
      } else {
        FindAfter("?", s1);
      }
    case None =>
      ChapterAdded(href, s1, s2);
  }

  /** A chapter URL built on an href that already names a chapter at `i`
      names its chapter at the same place, after the same text. */
  lemma ChapterKept(href: string, i: int, s1: string)
    requires Find(href, Chapter) == Some(i) && i > 0
    ensures Find(ChapterUrl(href, s1), Chapter) == Some(i)
    ensures ChapterUrl(href, s1)[..i] == href[..i]
  {
    var u := href[..i] + Chapter + s1;
    var n := i + |Chapter|;
    assert ChapterUrl(href, s1) == u;
    assert u[..n] == href[..n];
    forall k | 0 <= k < i ensures !OccursAt(u, Chapter, k) {
      OccursInPrefix(u, href, Chapter, n, k);
    }
    assert u[i..n] == Chapter;
    FindIs(u, Chapter, i);
  }

  /** Navigating from an href without a chapter, twice: the second URL
      keeps the href and operator of the first. */
  lemma ChapterAdded(href: string, s1: string, s2: string)
    requires Find(href, Chapter).None?
    ensures ChapterUrl(ChapterUrl(href, s1), s2) == ChapterUrl(href, s2)
  {
    var pre := href + [Operator(href)];
    var u := pre + Chapter + s1;
    AppendedUrl(href, s1);
    AppendedUrl(href, s2);
    AppendedFind(href, s1);
    assert u[..|pre|] == pre;
  }

  /** Without a chapter, the URL is the href, its operator and the chapter. */
  lemma AppendedUrl(href: string, selector: string)
    requires Find(href, Chapter).None?
    ensures ChapterUrl(href, selector) == href + [Operator(href)] + Chapter + selector
  {
  }

  /** The chapter appended to an href without one is the first. */
  lemma AppendedFind(href: string, selector: string)
    requires Find(href, Chapter).None?
    ensures Find(href + [Operator(href)] + Chapter + selector, Chapter) == Some(|href| + 1)
  {
    var pre := href + [Operator(href)];
    NotInChapter(Operator(href));
    FindNoneExtends(href, Operator(href));
    FindAfter(pre, selector);
  }

  /** Appending one character foreign to "chapter=" adds no occurrence. */
  lemma FindNoneExtends(s: string, c: char)
    requires Find(s, Chapter).None? && c !in Chapter
    ensures Find(s + [c], Chapter).None?
  {
    var t := s + [c];
    forall k ensures !OccursAt(t, Chapter, k) {
      if 0 <= k && k + |Chapter| <= |s| {
        assert t[k..k + |Chapter|] == s[k..k + |Chapter|];
        assert !OccursAt(s, Chapter, k);
      } else if 0 <= k && k + |Chapter| == |t| {
        assert t[k..k + |Chapter|][|Chapter| - 1] == c;
      }
    }
  }

  /** `scrollToElement`: when an element with the selector's id exists
      (`found` stands for the document query), the URL pushed to the
      history; None when nothing is found and nothing is pushed. */
  function ScrollToElement(elementId: string, found: string -> bool, href: string): (r: Option<string>)
    ensures r.None? <==> !found(Selector(elementId))
    ensures r.Some? ==> r.value == ChapterUrl(href, Selector(elementId))
  {
    var selector := Selector(elementId);
    if !found(selector) then None else Some(ChapterUrl(href, selector))
  }

  /** `closestParentElement` over the chain from the element to the root:
      the index of the first element that matches `selector`, unless an
      element matching `stop` comes first. */
  method ClosestParent<T>(chain: seq<T>, selector: T -> bool, stop: Option<T -> bool>) returns (r: Option<nat>)
    ensures r.Some? ==> r.value < |chain| && selector(chain[r.value])
    ensures r.Some? ==> forall j :: 0 <= j < r.value ==> !selector(chain[j]) && !Stops(stop, chain[j])
    ensures r.None? ==> forall j :: 0 <= j < |chain| && selector(chain[j]) ==>
      exists k :: 0 <= k < j && Stops(stop, chain[k])
  {
    var i := 0;
    r := None;
    while i < |chain|
      invariant 0 <= i <= |chain|
      invariant forall j :: 0 <= j < i ==> !selector(chain[j]) && !Stops(stop, chain[j])
    {
      if selector(chain[i]) {
        return Some(i);
      } else if Stops(stop, chain[i]) {
        return None;
      }
      i := i + 1;
    }
  }

  /** The element matches the stop selector, when one is given. */
  predicate Stops<T>(stop: Option<T -> bool>, e: T) {
    stop.Some? && stop.value(e)
  }
}
