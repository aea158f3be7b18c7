/**
 * The elements of a POSIX path and the iterator that walks them in both directions
 * (source/io/fs/Path.cpp). `Visited` is the reference: perhaps a network name, a root separator,
 * then the names between separators, then "." for a trailing separator. Positions are indices into
 * the path's string.
 */
module PathElements {

  const DOT := "."
  const DOTDOT := ".."
  const ROOT := "/"
  const NPOS := -1

  predicate IsSeparator(c: char) { c == '/' }

  // ---------- searching ----------

  /** The first separator from `i` on, or the end. */
  function NameEnd(p: string, i: nat): (r: nat)
    requires i <= |p|
    ensures i <= r <= |p| && (r < |p| ==> IsSeparator(p[r]))
    ensures forall k :: i <= k < r ==> !IsSeparator(p[k])
    decreases |p| - i
  {
    if i == |p| || IsSeparator(p[i]) then i else NameEnd(p, i + 1)
  }

  /** The first character from `i` on that is not a separator, or the end. */
  function SkipSeparators(p: string, i: nat): (r: nat)
    requires i <= |p|
    ensures i <= r <= |p| && (r < |p| ==> !IsSeparator(p[r]))
    ensures forall k :: i <= k < r ==> IsSeparator(p[k])
    decreases |p| - i
  {
    if i == |p| || !IsSeparator(p[i]) then i else SkipSeparators(p, i + 1)
  }

  /** Back from `i` over separators, but not over the one at `stop`. */
  function BackOver(p: string, i: nat, stop: int): (r: nat)
    requires i <= |p|
    ensures r <= i && (stop < r || i <= stop) && forall k :: r <= k < i ==> IsSeparator(p[k])
    ensures r == 0 || r - 1 == stop || !IsSeparator(p[r - 1])
  {
    if i > 0 && i - 1 != stop && IsSeparator(p[i - 1]) then BackOver(p, i - 1, stop) else i
  }

  /** The last separator before `n`, or `NPOS`. */
  function LastSeparator(p: string, n: nat): (r: int)
    requires n <= |p|
    ensures NPOS <= r < n && (r >= 0 ==> IsSeparator(p[r]))
    ensures forall k :: r < k < n ==> !IsSeparator(p[k])
  {
    if n == 0 then NPOS else if IsSeparator(p[n - 1]) then n - 1 else LastSeparator(p, n - 1)
  }

  // ---------- the helpers of the path class ----------

  /** Exactly two leading separators start a network name. */
  predicate IsNet(p: string) {
    |p| >= 2 && IsSeparator(p[0]) && IsSeparator(p[1]) && (|p| == 2 || !IsSeparator(p[2]))
  }

  predicate IsRootSeparator(p: string, pos: nat)
    requires pos < |p| && IsSeparator(p[pos])
  {
    var left := BackOver(p, pos, NPOS);
    if left == 0 then true
    else if left < 3 || !IsSeparator(p[0]) || !IsSeparator(p[1]) then false
    else NameEnd(p, 2) == left
  }

  function FilenamePos(p: string, end: nat): (r: nat)
    requires end <= |p|
    ensures r <= |p| && (end > 0 ==> r < end)
  {
    if end == 2 && IsSeparator(p[0]) && IsSeparator(p[1]) then 0
    else if end > 0 && IsSeparator(p[end - 1]) then end - 1
    else
      // without an end the search of the original starts at the last character
      var pos := LastSeparator(p, if end == 0 then |p| else end);
      if pos == NPOS || (pos == 1 && IsSeparator(p[0])) then 0 else pos + 1
  }

  function RootDirectoryStart(p: string, size: nat): (r: int)
    requires size <= |p|
    ensures NPOS <= r < |p|
  {
    if size == 2 && IsSeparator(p[0]) && IsSeparator(p[1]) then NPOS
    else if size > 3 && IsSeparator(p[0]) && IsSeparator(p[1]) && !IsSeparator(p[2]) then
      var pos := NameEnd(p, 2);
      if pos < size then pos else NPOS
    else if size > 0 && IsSeparator(p[0]) then 0
    else NPOS
  }

  // ---------- the iterator ----------

  /** An iterator: where it stands, and the element it shows. */
  datatype Element = Element(pos: nat, text: string)

  function Begin(p: string): Element {
    if p == "" then Element(0, "")
    else if IsNet(p) then Element(0, p[..NameEnd(p, 2)])
    else if IsSeparator(p[0]) then Element(SkipSeparators(p, 0) - 1, ROOT)
    else Element(0, p[..NameEnd(p, 0)])
  }

  function End(p: string): Element { Element(|p|, "") }

  predicate Dereferenceable(p: string, it: Element) { it.pos < |p| && it.pos + |it.text| <= |p| }

  predicate WasNet(text: string) {
    |text| > 2 && IsSeparator(text[0]) && IsSeparator(text[1]) && !IsSeparator(text[2])
  }

  function After(p: string, it: Element): Element
    requires Dereferenceable(p, it)
  {
    var e := it.pos + |it.text|;
    if e == |p| then End(p)
    else if IsSeparator(p[e]) && WasNet(it.text) then Element(e, ROOT)
    else
      var j := SkipSeparators(p, e);
      if j == |p| && j > e && !IsRootSeparator(p, j - 1) then Element(j - 1, DOT)
      else Element(j, p[j..NameEnd(p, j)])
  }

  function Before(p: string, pos: nat): Element
    requires 0 < pos <= |p|
  {
    if pos == |p| && |p| > 1 && IsSeparator(p[pos - 1]) && !IsRootSeparator(p, pos - 1) then Element(pos - 1, DOT)
    else
      var end := BackOver(p, pos, RootDirectoryStart(p, pos));
      var start := FilenamePos(p, end);
      // a length below nothing wraps around, and then reaches to the end of the string
      Element(start, if start <= end then p[start..end] else p[start..])
  }

  // ---------- the reference ----------

  /** The elements from a name at `i` on. */
  function NamesFrom(p: string, i: nat): (r: seq<Element>)
    requires i < |p| && !IsSeparator(p[i])
    ensures r != []
    decreases |p| - i
  {
    var e := NameEnd(p, i);
    var j := SkipSeparators(p, e);
    [Element(i, p[i..e])] +
    if e == |p| then [] else if j == |p| then [Element(|p| - 1, DOT)] else NamesFrom(p, j)
  }

  /** The elements of a path that does not start with a network name. */
  function Elements(p: string): seq<Element> {
    if p == "" then []
    else if !IsSeparator(p[0]) then NamesFrom(p, 0)
    else
      var j := SkipSeparators(p, 0);
      [Element(j - 1, ROOT)] + if j == |p| then [] else NamesFrom(p, j)
  }

  /** A network name, its root, and the names below it. */
  function NetElements(p: string): seq<Element>
    requires IsNet(p)
  {
    var e := NameEnd(p, 2);
    var j := SkipSeparators(p, e);
    [Element(0, p[..e])] +
    if e == |p| then [] else [Element(e, ROOT)] + if j == |p| then [] else NamesFrom(p, j)
  }

  function Visited(p: string): seq<Element> { if IsNet(p) then NetElements(p) else Elements(p) }

  /** What `++` makes of element `k`: the next one, or the end. */
  function NextOf(p: string, es: seq<Element>, k: nat): Element
    requires k < |es|
  {
    if k + 1 < |es| then es[k + 1] else End(p)
  }

  lemma NameEndsAt(p: string, i: nat, e: nat)
    requires i <= e <= |p| && (e < |p| ==> IsSeparator(p[e])) && forall k :: i <= k < e ==> !IsSeparator(p[k])
    ensures NameEnd(p, i) == e
  {
  }

  /** A name that is not the network name, if there is one, ends at `e`. */
  predicate PastNet(p: string, e: nat) { IsNet(p) ==> NameEnd(p, 2) < e }

  /** A trailing separator after a name is not a root separator. */
  lemma NotRootAfterName(p: string, e: nat, j: nat)
    requires PastNet(p, e) && 0 < e < j <= |p| && !IsSeparator(p[e - 1]) && forall k :: e <= k < j ==> IsSeparator(p[k])
    ensures !IsRootSeparator(p, j - 1)
  {
    var left := BackOver(p, j - 1, NPOS);
    assert left == e;
    if e >= 3 && IsSeparator(p[0]) && IsSeparator(p[1]) && IsSeparator(p[2]) {
      assert NameEnd(p, 2) == 2;
    }
  }

  lemma {:induction false} ForwardNames(p: string, i: nat, k: nat)
    requires PastNet(p, i) && i < |p| && !IsSeparator(p[i]) && k < |NamesFrom(p, i)|
    ensures var es := NamesFrom(p, i);
      && Dereferenceable(p, es[k]) && es[0].pos == i
      && After(p, es[k]) == NextOf(p, es, k)
      && es[k].pos < NextOf(p, es, k).pos
    decreases |p| - i
  {
    var es, e := NamesFrom(p, i), NameEnd(p, i);
    var j := SkipSeparators(p, e);
    if e < |p| {
      if j == |p| { NotRootAfterName(p, e, j); }
      if k > 0 && j < |p| {
        ForwardNames(p, j, k - 1);
        assert es[1..] == NamesFrom(p, j);
      }
    }
  }

  lemma ElementStep(p: string, k: nat)
    requires !IsNet(p) && k < |Elements(p)|
    ensures var es := Elements(p);
      Dereferenceable(p, es[k]) && After(p, es[k]) == NextOf(p, es, k) && es[k].pos < NextOf(p, es, k).pos
  {
    if !IsSeparator(p[0]) {
      ForwardNames(p, 0, k);
    } else {
      var j := SkipSeparators(p, 0);
      if k > 0 { ForwardNames(p, j, k - 1); }
      else if j < |p| { ForwardNames(p, j, 0); }
    }
  }

  /** Separators after the network name are its root. */
  lemma NetRoot(p: string, j: nat)
    requires IsNet(p) && NameEnd(p, 2) < j <= |p| && forall k :: NameEnd(p, 2) <= k < j ==> IsSeparator(p[k])
    ensures IsRootSeparator(p, j - 1)
  {
    BackOverIs(p, j - 1, NPOS, NameEnd(p, 2));
  }

  lemma NetNameStep(p: string)
    requires IsNet(p)
    ensures var e := NameEnd(p, 2); After(p, Element(0, p[..e])) == if e == |p| then End(p) else Element(e, ROOT)
  {
  }

  lemma NetRootStep(p: string)
    requires IsNet(p) && NameEnd(p, 2) < |p|
    ensures var e := NameEnd(p, 2); var j := SkipSeparators(p, e);
      After(p, Element(e, ROOT)) == (if j == |p| then End(p) else Element(j, p[j..NameEnd(p, j)])) && e < j
  {
    var e := NameEnd(p, 2);
    var j := SkipSeparators(p, e);
    assert SkipSeparators(p, e + 1) == j;
    if j == |p| { NetRoot(p, j); }
  }

  lemma NetStep(p: string, k: nat)
    requires IsNet(p) && k < |NetElements(p)|
    ensures var es := NetElements(p);
      Dereferenceable(p, es[k]) && After(p, es[k]) == NextOf(p, es, k) && es[k].pos < NextOf(p, es, k).pos
  {
    hide After, NameEnd, SkipSeparators;
    var e := NameEnd(p, 2);
    var j := SkipSeparators(p, e);
    NetNameStep(p);
    if e < |p| {
      NetRootStep(p);
      if j < |p| { ForwardNames(p, j, if k > 1 then k - 2 else 0); }
    }
  }

  lemma VisitedStep(p: string, k: nat)
    requires k < |Visited(p)|
    ensures var es := Visited(p);
      Dereferenceable(p, es[k]) && After(p, es[k]) == NextOf(p, es, k) && es[k].pos < NextOf(p, es, k).pos
  {
    hide After, NextOf, Elements, NetElements;
    if IsNet(p) { NetStep(p, k); } else { ElementStep(p, k); }
  }

  lemma BeginsThere(p: string)
    ensures Begin(p) == if Visited(p) == [] then End(p) else Visited(p)[0]
  {
  }

  /** Incrementing from the beginning visits exactly the elements, each further on than the one before. */
  lemma ForwardVisitsElements(p: string)
    ensures var es := Visited(p);
      && Begin(p) == (if es == [] then End(p) else es[0])
      && forall k :: 0 <= k < |es| ==>
           Dereferenceable(p, es[k]) && After(p, es[k]) == NextOf(p, es, k) && es[k].pos < NextOf(p, es, k).pos
  {
    hide Visited, After, NextOf, Begin;
    var es := Visited(p);
    forall k | 0 <= k < |es|
      ensures Dereferenceable(p, es[k]) && After(p, es[k]) == NextOf(p, es, k) && es[k].pos < NextOf(p, es, k).pos
    {
      VisitedStep(p, k);
    }
    BeginsThere(p);
  }

  // ---------- backwards ----------

  predicate ThreeLeading(p: string) { |p| >= 3 && IsSeparator(p[0]) && IsSeparator(p[1]) && IsSeparator(p[2]) }

  predicate AtMostOneLeading(p: string) { |p| >= 2 ==> !(IsSeparator(p[0]) && IsSeparator(p[1])) }

  predicate IsNameAt(p: string, i: nat, e: nat) {
    && i < e <= |p| && (i > 0 ==> IsSeparator(p[i - 1])) && (e < |p| ==> IsSeparator(p[e]))
    && forall k :: i <= k < e ==> !IsSeparator(p[k])
  }

  // ---------- what the elements are ----------

  /** A name of the path: a longest stretch without separators. */
  predicate IsNameElement(p: string, x: Element) {
    IsNameAt(p, x.pos, x.pos + |x.text|) && x.text == p[x.pos..x.pos + |x.text|]
  }

  /** The dot that stands for a separator at the end. */
  predicate IsEndDot(p: string, x: Element) { p != "" && IsSeparator(p[|p| - 1]) && x == Element(|p| - 1, DOT) }

  ghost predicate InSomeName(p: string, es: seq<Element>, j: nat) {
    exists k :: 0 <= k < |es| && IsNameElement(p, es[k]) && es[k].pos <= j < es[k].pos + |es[k].text|
  }

  /** All names from `i` on, and a dot at the end if and only if a separator is there. */
  ghost predicate AreNames(p: string, i: nat, es: seq<Element>) {
    && p != "" && es != []
    && (forall k :: 0 <= k < |es| - 1 ==> IsNameElement(p, es[k]))
    && (if IsSeparator(p[|p| - 1]) then |es| > 1 && IsEndDot(p, es[|es| - 1]) else IsNameElement(p, es[|es| - 1]))
    && (forall j :: i <= j < |p| && !IsSeparator(p[j]) ==> InSomeName(p, es, j))
  }

  lemma {:induction false} NamesAre(p: string, i: nat)
    requires i < |p| && !IsSeparator(p[i]) && (i > 0 ==> IsSeparator(p[i - 1]))
    ensures AreNames(p, i, NamesFrom(p, i))
    decreases |p| - i
  {
    hide NameEnd, SkipSeparators, AreNames;
    var e := NameEnd(p, i);
    var j := SkipSeparators(p, e);
    if j == |p| {
      OnlyName(p, i, e);
    } else {
      NamesAre(p, j);
      OneMoreName(p, i, e, j, NamesFrom(p, j));
    }
  }

  lemma OnlyName(p: string, i: nat, e: nat)
    requires IsNameAt(p, i, e) && forall k :: e <= k < |p| ==> IsSeparator(p[k])
    ensures AreNames(p, i, [Element(i, p[i..e])] + if e == |p| then [] else [Element(|p| - 1, DOT)])
  {
    var x := Element(i, p[i..e]);
    var es := [x] + if e == |p| then [] else [Element(|p| - 1, DOT)];
    assert es[0] == x && IsNameElement(p, x);
    assert e == |p| ==> es == [x];
    forall m | i <= m < |p| && !IsSeparator(p[m]) ensures InSomeName(p, es, m) { assert m < e; }
  }

  lemma OneMoreName(p: string, i: nat, e: nat, j: nat, rest: seq<Element>)
    requires IsNameAt(p, i, e) && e <= j < |p| && AreNames(p, j, rest) && forall k :: e <= k < j ==> IsSeparator(p[k])
    ensures AreNames(p, i, [Element(i, p[i..e])] + rest)
  {
    hide IsNameElement, InSomeName;
    var x := Element(i, p[i..e]);
    NameIsElement(p, i, e);
    forall m | i <= m < |p| && !IsSeparator(p[m]) ensures InSomeName(p, [x] + rest, m) { NameOrRest(p, x, rest, m); }
  }

  lemma NameIsElement(p: string, i: nat, e: nat)
    requires IsNameAt(p, i, e)
    ensures IsNameElement(p, Element(i, p[i..e]))
  {
  }

  lemma NameOrRest(p: string, x: Element, rest: seq<Element>, m: nat)
    requires IsNameElement(p, x) && ((x.pos <= m < x.pos + |x.text|) || InSomeName(p, rest, m))
    ensures InSomeName(p, [x] + rest, m)
  {
    var es := [x] + rest;
    if x.pos <= m < x.pos + |x.text| {
      assert es[0] == x;
    } else {
      var k :| 0 <= k < |rest| && IsNameElement(p, rest[k]) && rest[k].pos <= m < rest[k].pos + |rest[k].text|;
      assert es[k + 1] == rest[k];
    }
  }

  /** The last of the separators a path starts with. */
  predicate IsRoot(p: string, x: Element) {
    && x.text == ROOT && x.pos < |p| && (forall k :: 0 <= k <= x.pos ==> IsSeparator(p[k]))
    && (x.pos + 1 < |p| ==> !IsSeparator(p[x.pos + 1]))
  }

  /** The elements of a path without a network name: its root, its names, a dot for a separator at the end. */
  lemma ElementsAre(p: string)
    ensures p == "" ==> Elements(p) == []
    ensures p != "" && !IsSeparator(p[0]) ==> AreNames(p, 0, Elements(p))
    ensures p != "" && IsSeparator(p[0]) ==> Elements(p) != [] && IsRoot(p, Elements(p)[0])
    ensures p != "" && IsSeparator(p[0]) && |Elements(p)| > 1 ==>
      AreNames(p, Elements(p)[0].pos + 1, Elements(p)[1..])
    ensures p != "" && IsSeparator(p[0]) ==> (|Elements(p)| == 1 <==> forall k :: 0 <= k < |p| ==> IsSeparator(p[k]))
  {
    hide AreNames, NamesFrom;
    if p != "" {
      if !IsSeparator(p[0]) {
        NamesAre(p, 0);
      } else {
        var j := SkipSeparators(p, 0);
        if j < |p| {
          NamesAre(p, j);
          assert Elements(p)[1..] == NamesFrom(p, j);
        }
      }
    }
  }

  /** Those of a path with one: that name, the root behind it, and then the same. */
  lemma NetElementsAre(p: string)
    requires IsNet(p)
    ensures var es, e := Visited(p), NameEnd(p, 2);
      && es != [] && es[0] == Element(0, p[..e])
      && (|es| == 1 <==> e == |p|)
      && (|es| > 1 ==> es[1] == Element(e, ROOT))
      && (|es| == 2 ==> forall k :: e <= k < |p| ==> IsSeparator(p[k]))
      && (|es| > 2 ==> AreNames(p, e, es[2..]))
  {
    hide AreNames, NamesFrom;
    var e := NameEnd(p, 2);
    var j := SkipSeparators(p, e);
    if e < |p| && j < |p| {
      NamesAre(p, j);
      FromEarlier(p, e, j, NamesFrom(p, j));
      assert Visited(p)[2..] == NamesFrom(p, j);
    }
  }

  lemma FromEarlier(p: string, i: nat, j: nat, es: seq<Element>)
    requires i <= j < |p| && AreNames(p, j, es) && forall k :: i <= k < j ==> IsSeparator(p[k])
    ensures AreNames(p, i, es)
  {
  }

  lemma {:induction false} BackOverIs(p: string, i: nat, stop: int, r: nat)
    requires r <= i <= |p| && (stop < r || i <= stop) && (forall k :: r <= k < i ==> IsSeparator(p[k]))
    requires r == 0 || r - 1 == stop || !IsSeparator(p[r - 1])
    ensures BackOver(p, i, stop) == r
  {
    if r < i { BackOverIs(p, i - 1, stop, r); }
  }

  /** From anywhere in the separators after a name, decrementing goes to that name. */
  lemma BackToName(p: string, i: nat, e: nat, pos: nat)
    requires !ThreeLeading(p) && PastNet(p, i) && IsNameAt(p, i, e)
    requires e <= pos <= |p| && (forall k :: e <= k < pos ==> IsSeparator(p[k])) && (pos == |p| ==> e == pos)
    ensures Before(p, pos) == Element(i, p[i..e])
  {
    BackOverIs(p, pos, RootDirectoryStart(p, pos), e);
    assert LastSeparator(p, e) == i - 1;
  }

  lemma BackToDot(p: string, e: nat)
    requires PastNet(p, e) && 0 < e < |p| && !IsSeparator(p[e - 1]) && forall k :: e <= k < |p| ==> IsSeparator(p[k])
    ensures Before(p, |p|) == Element(|p| - 1, DOT)
  {
    NotRootAfterName(p, e, |p|);
  }

  lemma {:induction false} BackwardNames(p: string, i: nat, k: nat)
    requires !ThreeLeading(p) && PastNet(p, i) && i < |p| && IsNameAt(p, i, NameEnd(p, i)) && k < |NamesFrom(p, i)|
    ensures var es := NamesFrom(p, i);
      && 0 < NextOf(p, es, k).pos <= |p|
      && Before(p, NextOf(p, es, k).pos) == es[k]
    decreases |p| - i
  {
    hide Before, NameEnd, SkipSeparators, NextOf;
    var e := NameEnd(p, i);
    var j, x := SkipSeparators(p, e), Element(i, p[i..e]);
    if e == |p| {
      NextOfLast(p, x, []);
      BackToName(p, i, e, e);
    } else if j == |p| {
      NextOfLast(p, x, [Element(|p| - 1, DOT)]);
      if k == 0 { BackToName(p, i, e, |p| - 1); }
      else { BackToDot(p, e); }
    } else {
      var rest := NamesFrom(p, j);
      assert rest[0].pos == j;
      assert IsNameAt(p, j, NameEnd(p, j));
      if k == 0 {
        NextOfLast(p, x, rest);
        BackToName(p, i, e, j);
      } else {
        NextOfCons(p, x, rest, k);
        BackwardNames(p, j, k - 1);
      }
    }
  }

  lemma NextOfCons(p: string, x: Element, rest: seq<Element>, k: nat)
    requires 0 < k <= |rest|
    ensures ([x] + rest)[k] == rest[k - 1] && NextOf(p, [x] + rest, k) == NextOf(p, rest, k - 1)
  {
  }

  lemma NextOfLast(p: string, x: Element, rest: seq<Element>)
    ensures NextOf(p, [x] + rest, 0) == if rest == [] then End(p) else rest[0]
    ensures |rest| == 1 ==> NextOf(p, [x] + rest, 1) == End(p)
  {
  }

  /** Stepping back from element `k + 1`, or from the end, shows element `k`. */
  predicate StepsBack(p: string, k: nat)
    requires k < |Visited(p)|
  {
    var next := NextOf(p, Visited(p), k).pos;
    0 < next <= |p| && Before(p, next) == Visited(p)[k]
  }

  lemma PlainStepsBack(p: string, k: nat)
    requires AtMostOneLeading(p) && k < |Elements(p)|
    ensures StepsBack(p, k)
  {
    hide Before;
    if !IsSeparator(p[0]) {
      BackwardNames(p, 0, k);
    } else {
      var j := SkipSeparators(p, 0);
      assert j == 1;
      if j < |p| {
        assert IsNameAt(p, j, NameEnd(p, j));
        if k > 0 { BackwardNames(p, j, k - 1); } else { BackToRoot(p); }
      } else {
        BackToRoot(p);
      }
    }
  }

  lemma NetStepsBack(p: string, k: nat)
    requires IsNet(p) && |p| > 2 && k < |NetElements(p)|
    ensures StepsBack(p, k)
  {
    hide Before;
    var es, e := NetElements(p), NameEnd(p, 2);
    var j := SkipSeparators(p, e);
    if k == 0 {
      BackToNet(p);
    } else if k == 1 {
      BackToNetRoot(p, j);
    } else {
      assert IsNameAt(p, j, NameEnd(p, j));
      BackwardNames(p, j, k - 2);
    }
  }

  lemma BackToNet(p: string)
    requires IsNet(p) && |p| > 2
    ensures Before(p, NameEnd(p, 2)) == Element(0, p[..NameEnd(p, 2)])
  {
    var e := NameEnd(p, 2);
    assert p[0..e] == p[..e] && !IsSeparator(p[e - 1]);
    assert LastSeparator(p, e) == 1;
  }

  lemma BackToNetRoot(p: string, j: nat)
    requires IsNet(p) && NameEnd(p, 2) < j == SkipSeparators(p, NameEnd(p, 2))
    ensures Before(p, j) == Element(NameEnd(p, 2), ROOT)
  {
    var e := NameEnd(p, 2);
    NetRoot(p, j);
    assert RootDirectoryStart(p, j) == e;
    BackOverIs(p, j, e, e + 1);
    assert p[e..e + 1] == ROOT;
  }

  /** Decrementing from the end visits the same elements, at the same positions, in reverse. */
  lemma BackwardVisitsElements(p: string)
    requires !ThreeLeading(p) && p != "//"
    ensures forall k :: 0 <= k < |Visited(p)| ==> StepsBack(p, k)
  {
    hide StepsBack;
    forall k | 0 <= k < |Visited(p)| ensures StepsBack(p, k) {
      if IsNet(p) { NetStepsBack(p, k); } else { PlainStepsBack(p, k); }
    }
  }

  lemma BackToRoot(p: string)
    requires AtMostOneLeading(p) && |p| > 0 && IsSeparator(p[0])
    ensures Before(p, 1) == Element(0, ROOT)
  {
    assert RootDirectoryStart(p, 1) == 0;
    assert p[0..1] == ROOT;
  }

  /** With three leading separators or more, the root is found at another place from behind. */
  lemma RootElsewhere(p: string)
    requires ThreeLeading(p)
    ensures !StepsBack(p, 0)
  {
    var j := SkipSeparators(p, 0);
    assert NextOf(p, Visited(p), 0).pos == j >= 3 && RootDirectoryStart(p, j) == 0;
    BackOverIs(p, j, 0, 1);
    assert FilenamePos(p, 1) == 0;
  }

  /** Two separators and nothing else are an element that shows nothing from behind. */
  lemma NothingFromBehind()
    ensures Visited("//") == [Element(0, "//")] && Before("//", 2) == Element(0, "")
  {
    BackOverIs("//", 1, NPOS, 0);
    BackOverIs("//", 2, NPOS, 0);
    assert "//"[..2] == "//";
  }

  /**
   * Decrementing reverses incrementing if and only if the path does not start with three
   * separators and is not two separators alone.
   */
  lemma ReversesExactly(p: string)
    ensures (forall k :: 0 <= k < |Visited(p)| ==> StepsBack(p, k)) <==> !ThreeLeading(p) && p != "//"
  {
    if ThreeLeading(p) {
      RootElsewhere(p);
      assert |Visited(p)| > 0;
    } else if p == "//" {
      NothingFromBehind();
      assert !StepsBack(p, 0);
    } else {
      BackwardVisitsElements(p);
    }
  }

  /** Such as here: going forward the root stands at 2, going backward at 0. */
  lemma ReverseExample()
    ensures Visited("///a") == [Element(2, ROOT), Element(3, "a")] && Before("///a", 3) == Element(0, ROOT)
  {
    var p := "///a";
    assert SkipSeparators(p, 0) == 3 && NameEnd(p, 3) == 4 && p[3..4] == "a";
    BackOverIs(p, 3, 0, 1);
    assert p[0..1] == ROOT;
  }

  // ---------- the iterator class and the loops of its helpers ----------

  method RootSeparator(p: string, at: nat) returns (r: bool)
    requires at < |p| && IsSeparator(p[at])
    ensures r == IsRootSeparator(p, at)
  {
    var pos: nat := at;
    while pos > 0 && IsSeparator(p[pos - 1])
      invariant pos <= at && BackOver(p, pos, NPOS) == BackOver(p, at, NPOS)
    {
      pos := pos - 1;
    }
    if pos == 0 {
      return true;
    }
    if pos < 3 || !IsSeparator(p[0]) || !IsSeparator(p[1]) {
      return false;
    }
    return NameEnd(p, 2) == pos;
  }

  /** Position and size of the first element, without extra separators before it. */
  method FirstElement(p: string) returns (pos: nat, size: nat)
    ensures pos + size <= |p| && Begin(p) == Element(pos, p[pos..pos + size])
  {
    pos, size := 0, 0;
    if p == "" {
      return;
    }
    var cur := 0;
    if |p| >= 2 && IsSeparator(p[0]) && IsSeparator(p[1]) && (|p| == 2 || !IsSeparator(p[2])) {
      cur, size := 2, 2;
    } else if IsSeparator(p[0]) {
      size := 1;
      while cur + 1 < |p| && IsSeparator(p[cur + 1])
        invariant pos == cur < |p| && IsSeparator(p[cur])
        invariant SkipSeparators(p, 0) == SkipSeparators(p, cur)
      {
        cur := cur + 1;
        pos := pos + 1;
      }
      assert SkipSeparators(p, cur) == cur + 1;
      return;
    }
    ghost var first := cur;
    while cur < |p| && !IsSeparator(p[cur])
      invariant first <= cur == size <= |p| && NameEnd(p, first) == NameEnd(p, cur)
    {
      cur := cur + 1;
      size := size + 1;
    }
  }

  class Iterator {
    const path: string
    var pos: nat
    var element: string

    function View(): Element
      reads this
    {
      Element(pos, element)
    }

    constructor (p: string)
      ensures path == p && View() == Begin(p)
    {
      var at, size := FirstElement(p);
      path, pos, element := p, at, p[at..at + size];
    }

    method Increment()
      requires Dereferenceable(path, View())
      modifies this
      ensures View() == After(path, old(View()))
    {
      pos := pos + |element|;
      if pos == |path| {
        element := "";
        return;
      }
      var wasNet := WasNet(element);
      if IsSeparator(path[pos]) {
        if wasNet {
          element := ROOT;
          return;
        }
        ghost var e := pos;
        while pos != |path| && IsSeparator(path[pos])
          invariant e <= pos <= |path| && SkipSeparators(path, e) == SkipSeparators(path, pos)
          invariant pos > e ==> IsSeparator(path[pos - 1])
        {
          pos := pos + 1;
        }
        if pos == |path| {
          var root := RootSeparator(path, pos - 1);
          if !root {
            pos := pos - 1;
            element := DOT;
            return;
          }
        }
      }
      var end := NameEnd(path, pos);
      element := path[pos..end];
    }

    method Decrement()
      requires 0 < pos <= |path|
      modifies this
      ensures View() == Before(path, old(pos))
    {
      var end: nat := pos;
      if pos == |path| && |path| > 1 && IsSeparator(path[pos - 1]) {
        var root := RootSeparator(path, pos - 1);
        if !root {
          pos := pos - 1;
          element := DOT;
          return;
        }
      }
      var rootDirPos := RootDirectoryStart(path, end);
      while end > 0 && end - 1 != rootDirPos && IsSeparator(path[end - 1])
        invariant end <= pos && BackOver(path, end, rootDirPos) == BackOver(path, pos, rootDirPos)
      {
        end := end - 1;
      }
      pos := FilenamePos(path, end);
      element := if pos <= end then path[pos..end] else path[pos..];
    }
  }
}
