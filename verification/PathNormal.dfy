/**
 * Appending, taking apart and normalising POSIX paths, on their strings (source/io/fs/Path.cpp).
 * Normalising keeps the place a path leads to, from any directory of a tree without symbolic
 * links, and doing it twice changes nothing more. A network name that a path starts with, after
 * exactly two separators, stays in front of it.
 */
module PathNormal {
  import opened PathElements

  // ---------- the operations on strings ----------

  /** `operator/=`: a separator in between where neither side brings one. */
  function Append(p: string, q: string): string {
    if q == "" then p
    else if IsSeparator(q[0]) then p + q
    else (if p != "" && !IsSeparator(p[|p| - 1]) then p + "/" else p) + q
  }

  function Filename(p: string): string {
    var pos := FilenamePos(p, |p|);
    if |p| > 0 && pos > 0 && IsSeparator(p[pos]) && !IsRootSeparator(p, pos) then DOT else p[pos..]
  }

  function ParentPathEnd(p: string): (r: int)
    ensures NPOS <= r <= |p|
  {
    var pos := FilenamePos(p, |p|);
    var filenameWasSeparator := |p| > 0 && IsSeparator(p[pos]);
    var root := RootDirectoryStart(p, pos);
    var end := BackOver(p, pos, root);
    if end == 1 && root == 0 && filenameWasSeparator then NPOS else end
  }

  /** Its loop. */
  method ComputeParentPathEnd(p: string) returns (r: int)
    ensures r == ParentPathEnd(p)
  {
    var end: nat := FilenamePos(p, |p|);
    ghost var pos := end;
    var filenameWasSeparator := |p| > 0 && IsSeparator(p[end]);
    var rootDirPos := RootDirectoryStart(p, end);
    while end > 0 && end - 1 != rootDirPos && IsSeparator(p[end - 1])
      invariant end <= pos && BackOver(p, end, rootDirPos) == BackOver(p, pos, rootDirPos)
    {
      end := end - 1;
    }
    return if end == 1 && rootDirPos == 0 && filenameWasSeparator then NPOS else end;
  }

  function ParentPath(p: string): string {
    var end := ParentPathEnd(p);
    if end == NPOS then "" else p[..end]
  }

  // ---------- names put together ----------

  predicate IsName(t: string) { t != "" && forall k :: 0 <= k < |t| ==> !IsSeparator(t[k]) }

  /** Element texts of a path that is not a network name: names, perhaps after a root. */
  predicate Canonical(ts: seq<string>) {
    forall k :: 0 <= k < |ts| ==> IsName(ts[k]) || (k == 0 && ts[k] == ROOT)
  }

  function Texts(es: seq<Element>): (r: seq<string>)
    ensures |r| == |es|
  {
    seq(|es|, i requires 0 <= i < |es| => es[i].text)
  }

  function Join(ts: seq<string>): string {
    if ts == [] then "" else Append(Join(ts[..|ts| - 1]), ts[|ts| - 1])
  }

  predicate AllSeparators(s: string) { s != "" && forall k :: 0 <= k < |s| ==> IsSeparator(s[k]) }

  predicate EndsInName(x: string) { x != "" && !IsSeparator(x[|x| - 1]) }

  lemma {:induction false} NamesSkip(p: string, i: nat, e: nat, j: nat)
    requires i < e <= j <= |p|
    requires (forall k :: i <= k < e ==> !IsSeparator(p[k])) && (e < |p| ==> IsSeparator(p[e]))
    requires (forall k :: e <= k < j ==> IsSeparator(p[k])) && (j < |p| ==> !IsSeparator(p[j]))
    ensures NameEnd(p, i) == e && SkipSeparators(p, e) == j
  {
  }

  /** One more name behind separators is one more element; separators alone are one more dot. */
  lemma {:induction false} NamesExtend(x: string, s: string, t: string, i: nat)
    requires EndsInName(x) && AllSeparators(s) && (t == "" || IsName(t)) && i < |x| && !IsSeparator(x[i])
    ensures var p := x + s + t;
      NamesFrom(p, i) == NamesFrom(x, i) + [if t == "" then Element(|p| - 1, DOT) else Element(|x + s|, t)]
    decreases |x| - i
  {
    var p := x + s + t;
    var e := NameEnd(x, i);
    var j := SkipSeparators(x, e);
    assert p[i..e] == x[i..e];
    if e < |x| {
      NamesSkip(p, i, e, j);
      NamesExtend(x, s, t, j);
    } else {
      NamesSkip(p, i, |x|, |x + s|);
      if t != "" {
        NameEndsAt(p, |x + s|, |p|);
        assert p[|x + s|..|p|] == t;
      }
    }
  }

  lemma TextsSnoc(es: seq<Element>, x: Element)
    ensures Texts(es + [x]) == Texts(es) + [x.text]
  {
  }

  lemma ElementsExtend(x: string, s: string, t: string)
    requires EndsInName(x) && AllSeparators(s) && (t == "" || IsName(t))
    ensures Texts(Elements(x + s + t)) == Texts(Elements(x)) + [if t == "" then DOT else t]
  {
    hide NamesFrom, NameEnd, Texts;
    var p := x + s + t;
    var more := if t == "" then Element(|p| - 1, DOT) else Element(|x + s|, t);
    TextsSnoc(Elements(x), more);
    if !IsSeparator(x[0]) {
      NamesExtend(x, s, t, 0);
    } else {
      var j := SkipSeparators(x, 0);
      assert j < |x| && forall k :: 0 <= k < |x| ==> p[k] == x[k];
      SkipsTo(p, 0, j);
      NamesExtend(x, s, t, j);
      assert [Element(j - 1, ROOT)] + (NamesFrom(x, j) + [more]) == Elements(x) + [more];
    }
  }

  lemma {:induction false} SkipsTo(p: string, i: nat, j: nat)
    requires i <= j <= |p| && (j < |p| ==> !IsSeparator(p[j])) && forall k :: i <= k < j ==> IsSeparator(p[k])
    ensures SkipSeparators(p, i) == j
    decreases j - i
  {
    if i < j { SkipsTo(p, i + 1, j); }
  }

  lemma ElementsOfName(t: string)
    requires IsName(t)
    ensures Texts(Elements(t)) == [t]
    ensures Texts(Elements(ROOT + t)) == [ROOT, t]
  {
    NameEndsAt(t, 0, |t|);
    assert t[0..|t|] == t;
    var p := ROOT + t;
    NameEndsAt(p, 1, |p|);
    assert p[1..|p|] == t;
  }

  lemma ElementsOfRoot()
    ensures Texts(Elements(ROOT)) == [ROOT]
  {
  }

  /** The three forms of a string put together. */
  function Glue(b: string, t: string): string {
    if b == "" || b == ROOT then b + t else b + "/" + t
  }

  lemma AppendGlues(b: string, t: string)
    requires IsName(t) && (b == "" || b == ROOT || EndsInName(b))
    ensures Append(b, t) == Glue(b, t)
    ensures EndsInName(Glue(b, t)) && Glue(b, t) != ROOT
    ensures AtMostOneLeading(b) ==> AtMostOneLeading(Glue(b, t))
  {
    var p := Glue(b, t);
    assert p[|p| - 1] == t[|t| - 1];
    if b == "" { assert p == t; }
    else if b == ROOT { assert p == "/" + t && p[1] == t[0]; }
    else { assert p[0] == b[0] && p[1] == (b + "/")[1]; }
  }

  /** How the string of canonical texts looks. */
  lemma {:induction false} JoinShape(ts: seq<string>)
    requires Canonical(ts)
    ensures ts == [] <==> Join(ts) == ""
    ensures ts != [] ==> Join(ts) == ROOT || EndsInName(Join(ts))
    ensures Join(ts) == ROOT <==> ts == [ROOT]
    ensures AtMostOneLeading(Join(ts))
    ensures ts != [] && ts[|ts| - 1] != ROOT ==> Join(ts) == Glue(Join(ts[..|ts| - 1]), ts[|ts| - 1])
  {
    if ts != [] {
      var init, t := ts[..|ts| - 1], ts[|ts| - 1];
      JoinShape(init);
      if t == ROOT {
        assert IsSeparator(ROOT[0]);
        assert ts == [ROOT];
      } else {
        AppendGlues(Join(init), t);
      }
    }
  }

  /** The elements of a string put together from texts are these texts again. */
  lemma {:induction false} JoinElements(ts: seq<string>)
    requires Canonical(ts)
    ensures Texts(Elements(Join(ts))) == ts
  {
    hide Elements, Texts, Append;
    if ts != [] {
      var init, t := ts[..|ts| - 1], ts[|ts| - 1];
      JoinShape(ts);
      JoinShape(init);
      JoinElements(init);
      assert ts == init + [t];
      if t == ROOT {
        assert IsSeparator(ROOT[0]);
        assert ts == [ROOT];
        ElementsOfRoot();
      } else if init == [] || init == [ROOT] {
        ElementsOfName(t);
        assert "" + t == t;
      } else {
        ElementsExtend(Join(init), "/", t);
      }
    } else {
      ElementsOfNothing();
    }
  }

  lemma ElementsOfNothing()
    ensures Texts(Elements("")) == []
  {
  }

  lemma {:induction false} LastSeparatorIs(p: string, n: nat, r: int)
    requires NPOS <= r < n <= |p| && (r >= 0 ==> IsSeparator(p[r])) && forall k :: r < k < n ==> !IsSeparator(p[k])
    ensures LastSeparator(p, n) == r
  {
    if r < n - 1 { LastSeparatorIs(p, n - 1, r); }
  }

  /** Taking apart a path that ends in a name `t` after separators `s`. */
  lemma EndInName(x: string, s: string, t: string)
    requires IsName(t) && (s == "" || AllSeparators(s)) && (x != "" ==> EndsInName(x) && s != "") && !IsNet(x + s + t)
    ensures Filename(x + s + t) == t
    ensures ParentPathEnd(x + s + t) >= 0
    ensures ParentPath(x + s + t) == if x != "" then x else if s == "" then "" else ROOT
  {
    var p := x + s + t;
    var pos := |x + s|;
    assert p[|p| - 1] == t[|t| - 1] && p[pos] == t[0] && (pos > 0 ==> IsSeparator(p[pos - 1]));
    LastSeparatorIs(p, |p|, pos - 1);
    assert FilenamePos(p, |p|) == pos;
    assert p[pos..] == t;
    if x != "" {
      assert p[|x| - 1] == x[|x| - 1];
      BackOverIs(p, pos, RootDirectoryStart(p, pos), |x|);
      assert p[..|x|] == x;
    } else if s != "" {
      assert RootDirectoryStart(p, pos) == 0;
      BackOverIs(p, pos, 0, 1);
      assert p[..1] == ROOT;
    }
  }

  /** On a string put together from texts, the filename is the last one and its parent the others. */
  lemma JoinTakenApart(ts: seq<string>)
    requires Canonical(ts) && ts != []
    ensures Filename(Join(ts)) == ts[|ts| - 1]
    ensures ts[|ts| - 1] != ROOT ==> ParentPathEnd(Join(ts)) >= 0 && ParentPath(Join(ts)) == Join(ts[..|ts| - 1])
  {
    hide Filename, ParentPath, ParentPathEnd, Append, Join;
    var init, t := ts[..|ts| - 1], ts[|ts| - 1];
    JoinShape(ts);
    JoinShape(init);
    if t == ROOT {
      RootTakenApart();
    } else if init == [] {
      assert "" + "" + t == Join(ts);
      EndInName("", "", t);
    } else if init == [ROOT] {
      assert "" + ROOT + t == Join(ts);
      EndInName("", ROOT, t);
    } else {
      EndInName(Join(init), "/", t);
    }
  }

  lemma RootTakenApart()
    ensures Filename(ROOT) == ROOT
  {
  }

  /** Taking apart a path that ends in separators after a name. */
  lemma EndInSeparators(x: string, s: string)
    requires EndsInName(x) && AllSeparators(s) && PastNet(x + s, |x|)
    ensures Filename(x + s) == DOT && ParentPath(x + s) == x
  {
    var p := x + s;
    var pos := |p| - 1;
    assert IsSeparator(p[pos]) && p[|x| - 1] == x[|x| - 1];
    NotRootAfterName(p, |x|, |p|);
    assert |p| == 2 ==> p[0] == x[0];
    assert FilenamePos(p, |p|) == pos;
    BackOverIs(p, pos, RootDirectoryStart(p, pos), |x|);
    assert p[..|x|] == x;
  }

  /** And one of nothing but separators. */
  lemma OnlySeparators(p: string)
    requires AllSeparators(p)
    ensures Filename(p) == (if p == "//" then "//" else ROOT) && ParentPath(p) == ""
  {
    if |p| == 2 {
      assert p == "//";
      return;
    }
    var pos := |p| - 1;
    assert FilenamePos(p, |p|) == pos;
    BackOverIs(p, pos, NPOS, 0);
    assert p[pos..] == ROOT;
    if pos > 2 { BackOverIs(p, pos, 0, 1); }
  }

  /** Any path: a part that ends in a name, separators, a last name, each of them perhaps empty. */
  lemma SplitPath(p: string) returns (x: string, s: string, t: string)
    ensures p == x + s + t
    ensures (s == "" || AllSeparators(s)) && (t == "" || IsName(t)) && (x != "" ==> EndsInName(x) && s != "")
  {
    hide LastSeparator, BackOver;
    var last := LastSeparator(p, |p|) + 1;
    var e := BackOver(p, last, NPOS);
    x, s, t := p[..e], p[e..last], p[last..];
    forall k | 0 <= k < |t| ensures !IsSeparator(t[k]) { assert t[k] == p[last + k]; }
    forall k | 0 <= k < |s| ensures IsSeparator(s[k]) { assert s[k] == p[e + k]; }
    if e > 0 { assert e < last && x[e - 1] == p[e - 1]; }
  }

  lemma PutBackTogether(x: string, s: string, t: string, p: string)
    requires p == x + s + t && !IsNet(p)
    requires (s == "" || AllSeparators(s)) && (t == "" || IsName(t)) && (x != "" ==> EndsInName(x) && s != "")
    ensures var q := Append(ParentPath(p), Filename(p)); !IsNet(q) && Texts(Elements(q)) == Texts(Elements(p))
  {
    hide Filename, ParentPath, Elements, Texts, Append;
    if t != "" {
      EndInName(x, s, t);
      AppendGlues(ParentPath(p), t);
      if x != "" {
        ElementsExtend(x, s, t);
        ElementsExtend(x, "/", t);
        NotNetBefore(x, s + t, "/" + t);
        assert x + "/" + t == x + ("/" + t) && x + s + t == x + (s + t);
      } else {
        ElementsOfName(t);
        RootedName(s, t);
      }
    } else if x != "" {
      assert x + s == p;
      EndInSeparators(x, s);
      AppendGlues(x, DOT);
      ElementsExtend(x, s, t);
      ElementsExtend(x, "/", DOT);
      NotNetBefore(x, s, "/" + DOT);
      assert x + "/" + DOT == x + ("/" + DOT);
    } else if s != "" {
      assert p == s;
      OnlySeparators(p);
      NothingButRoot(p);
    } else {
      assert p == "";
      EmptyTakenApart();
    }
  }

  lemma EmptyTakenApart()
    ensures Append(ParentPath(""), Filename("")) == ""
  {
  }

  lemma RootedName(s: string, t: string)
    requires (s == "" || AllSeparators(s)) && IsName(t) && !IsNet(s + t)
    ensures Texts(Elements("" + s + t)) == Texts(Elements(if s == "" then t else ROOT + t))
    ensures !IsNet(if s == "" then t else ROOT + t)
  {
    var p := "" + s + t;
    if s == "" {
      assert p == t;
    } else {
      SkipsTo(p, 0, |s|);
      NameEndsAt(p, |s|, |p|);
      assert p[|s|..|p|] == t;
      ElementsOfName(t);
    }
  }

  lemma NothingButRoot(p: string)
    requires AllSeparators(p)
    ensures Texts(Elements(p)) == [ROOT] && Append("", ROOT) == ROOT && Texts(Elements(ROOT)) == [ROOT] && !IsNet(ROOT)
  {
    SkipsTo(p, 0, |p|);
  }

  /** Whether a path starts with a network name is settled by what ends in a name. */
  lemma NotNetBefore(x: string, y: string, z: string)
    requires EndsInName(x) && !IsNet(x + y)
    ensures !IsNet(x + z)
  {
    assert forall k :: 0 <= k < |x| ==> (x + z)[k] == x[k] == (x + y)[k];
  }

  // ---------- network names ----------

  /** The network name a path starts with, and the rest. */
  function NetName(p: string): (h: string)
    requires IsNet(p)
    ensures h <= p && |h| == NameEnd(p, 2)
  {
    p[..NameEnd(p, 2)]
  }

  predicate IsNetName(h: string) { IsNet(h) && NameEnd(h, 2) == |h| }

  lemma NetSplits(p: string)
    requires IsNet(p)
    ensures var h := NetName(p); var r := p[|h|..];
      p == h + r && IsNetName(h) && (r == "" || (IsSeparator(r[0]) && |h| > 2))
  {
    var h := NetName(p);
    NameEndsAt(h, 2, |h|);
  }

  /** A network name and something that starts with a separator. */
  lemma NetJoined(h: string, r: string)
    requires IsNetName(h) && (r == "" || (IsSeparator(r[0]) && |h| > 2))
    ensures var p := h + r; IsNet(p) && NameEnd(p, 2) == |h| && NetName(p) == h && p[|h|..] == r
  {
    var p := h + r;
    NameEndsAt(p, 2, |h|);
    assert p[..|h|] == h;
  }

  lemma TextsCons(x: Element, es: seq<Element>)
    ensures Texts([x] + es) == [x.text] + Texts(es)
  {
  }

  predicate IsTail(p: string, n: nat, r: string) { n <= |p| && p[n..] == r }

  lemma TailSearch(p: string, n: nat, r: string, i: nat)
    requires IsTail(p, n, r) && i < |r| && !IsSeparator(r[i])
    ensures |p| == n + |r| && !IsSeparator(p[n + i])
    ensures var e := NameEnd(r, i); var j := SkipSeparators(r, e);
      && NameEnd(p, n + i) == n + e && SkipSeparators(p, n + e) == n + j && p[n + i..n + e] == r[i..e]
  {
    var e := NameEnd(r, i);
    assert forall k :: 0 <= k < |r| ==> p[n + k] == r[k];
    NamesSkip(p, n + i, n + e, n + SkipSeparators(r, e));
  }

  lemma NamesUnfold(p: string, i: nat)
    requires i < |p| && !IsSeparator(p[i])
    ensures var e := NameEnd(p, i); var j := SkipSeparators(p, e);
      Texts(NamesFrom(p, i)) == [p[i..e]] + if e == |p| then [] else if j == |p| then [DOT] else Texts(NamesFrom(p, j))
  {
    hide Texts;
    var e := NameEnd(p, i);
    var j := SkipSeparators(p, e);
    TextsCons(Element(i, p[i..e]),
              if e == |p| then [] else if j == |p| then [Element(|p| - 1, DOT)] else NamesFrom(p, j));
    TextsCons(Element(|p| - 1, DOT), []);
    assert [Element(|p| - 1, DOT)] + [] == [Element(|p| - 1, DOT)] && [DOT] + [] == [DOT];
    NoTexts();
  }

  lemma NoTexts()
    ensures Texts([]) == []
  {
  }

  lemma {:induction false} TailNames(p: string, n: nat, r: string, i: nat)
    requires IsTail(p, n, r) && i < |r| && !IsSeparator(r[i])
    ensures n + i < |p| && !IsSeparator(p[n + i]) && Texts(NamesFrom(p, n + i)) == Texts(NamesFrom(r, i))
    decreases |r| - i
  {
    hide Texts, NameEnd, SkipSeparators, NamesFrom, IsTail;
    var e := NameEnd(r, i);
    var j := SkipSeparators(r, e);
    TailSearch(p, n, r, i);
    NamesUnfold(p, n + i);
    NamesUnfold(r, i);
    if j < |r| && e < |r| {
      NameMoves(r, i);
      TailNames(p, n, r, j);
    }
  }

  lemma NameMoves(r: string, i: nat)
    requires i < |r| && !IsSeparator(r[i])
    ensures i < NameEnd(r, i)
  {
  }

  lemma RootedTexts(r: string)
    requires r != "" && IsSeparator(r[0])
    ensures var j := SkipSeparators(r, 0);
      Texts(Elements(r)) == [ROOT] + if j == |r| then [] else Texts(NamesFrom(r, j))
  {
    hide Texts, NamesFrom, SkipSeparators;
    var j := SkipSeparators(r, 0);
    TextsCons(Element(j - 1, ROOT), if j == |r| then [] else NamesFrom(r, j));
    NoTexts();
  }

  lemma NetUnfold(p: string)
    requires IsNet(p)
    ensures var e := NameEnd(p, 2); var j := SkipSeparators(p, e);
      Texts(Visited(p)) == [p[..e]] + if e == |p| then [] else [ROOT] + if j == |p| then [] else Texts(NamesFrom(p, j))
  {
    hide Texts, NamesFrom;
    var e := NameEnd(p, 2);
    var j := SkipSeparators(p, e);
    var names := if j == |p| then [] else NamesFrom(p, j);
    TextsCons(Element(0, p[..e]), if e == |p| then [] else [Element(e, ROOT)] + names);
    TextsCons(Element(e, ROOT), names);
    NoTexts();
  }

  /** A path that starts with a network name has that and then the elements of the rest. */
  lemma NetTexts(h: string, r: string)
    requires IsNetName(h) && (r == "" || (IsSeparator(r[0]) && |h| > 2))
    ensures IsNet(h + r) && Texts(Visited(h + r)) == [h] + Texts(Elements(r))
  {
    hide Texts, NamesFrom, Visited, NameEnd, SkipSeparators, IsNetName;
    var p := h + r;
    NetJoined(h, r);
    NetUnfold(p);
    if r == "" {
      NoTexts();
    } else {
      var j := SkipSeparators(r, 0);
      RootedTexts(r);
      TailSkips(p, |h|, r);
      if j < |r| { TailNames(p, |h|, r, j); }
    }
  }

  lemma TailSkips(p: string, n: nat, r: string)
    requires IsTail(p, n, r)
    ensures |p| == n + |r| && SkipSeparators(p, n) == n + SkipSeparators(r, 0)
  {
    var j := SkipSeparators(r, 0);
    assert forall k :: 0 <= k < |r| ==> p[n + k] == r[k];
    SkipsTo(p, n, n + j);
  }

  /** The same as `EndInName`, behind a network name. */
  lemma NetEndInName(y: string, s: string, t: string)
    requires IsNet(y) && EndsInName(y) && AllSeparators(s) && IsName(t)
    ensures Filename(y + s + t) == t && ParentPathEnd(y + s + t) >= 0
    ensures ParentPath(y + s + t) == if IsNetName(y) then y + ROOT else y
  {
    hide Filename, ParentPath;
    var p, pos := y + s + t, |y + s|;
    SameNet(y, s + t);
    assert p == y + (s + t) && p[pos..] == t && p[..|y|] == y && p[..|y| + 1] == y + ROOT;
    forall k | pos <= k < |p| ensures !IsSeparator(p[k]) { assert p[k] == t[k - pos]; }
    forall k | |y| <= k < pos ensures IsSeparator(p[k]) { assert p[k] == s[k - |y|]; }
    NetParent(p, if IsNetName(y) then |y| + 1 else |y|, pos);
  }

  lemma SameNet(y: string, r: string)
    requires IsNet(y) && EndsInName(y) && r != "" && IsSeparator(r[0])
    ensures var p := y + r; IsNet(p) && NameEnd(p, 2) == NameEnd(y, 2) && !IsSeparator(p[|y| - 1])
  {
    var p := y + r;
    NameEndsAt(p, 2, NameEnd(y, 2));
  }

  /** Where the parent ends, if the last name starts at `pos`. */
  lemma NetParent(p: string, end: nat, pos: nat)
    requires IsNet(p) && NameEnd(p, 2) < end <= pos < |p| && IsSeparator(p[pos - 1])
    requires (forall k :: pos <= k < |p| ==> !IsSeparator(p[k])) && (forall k :: end <= k < pos ==> IsSeparator(p[k]))
    requires end == NameEnd(p, 2) + 1 || !IsSeparator(p[end - 1])
    ensures Filename(p) == p[pos..] && ParentPathEnd(p) == end && ParentPath(p) == p[..end]
  {
    LastSeparatorIs(p, |p|, pos - 1);
    assert FilenamePos(p, |p|) == pos;
    assert RootDirectoryStart(p, pos) == NameEnd(p, 2);
    BackOverIs(p, pos, NameEnd(p, 2), end);
  }

  /** A network name and separators: the last of them is the filename. */
  lemma NetEndInSeparators(h: string, s: string)
    requires IsNetName(h) && |h| > 2 && AllSeparators(s)
    ensures Filename(h + s) == ROOT && ParentPath(h + s) == h + s[..if |s| == 1 then 0 else 1]
  {
    var p, n := h + s, |h| + |s| - 1;
    NetJoined(h, s);
    NetRoot(p, |p|);
    assert FilenamePos(p, |p|) == n && p[n..] == ROOT;
    if |s| > 1 {
      assert RootDirectoryStart(p, n) == |h|;
      BackOverIs(p, n, |h|, |h| + 1);
    } else {
      BackOverIs(p, n, RootDirectoryStart(p, n), n);
    }
  }

  lemma NetAlone(h: string)
    requires IsNetName(h)
    ensures Append(ParentPath(h), Filename(h)) == h
  {
    if |h| > 2 { LastSeparatorIs(h, |h|, 1); }
    assert FilenamePos(h, |h|) == 0 && h[0..] == h;
  }

  lemma NetPutBackTogether(p: string)
    requires IsNet(p)
    ensures Texts(Visited(Append(ParentPath(p), Filename(p)))) == Texts(Visited(p))
  {
    hide Filename, ParentPath, Visited, Texts, Append, Elements;
    NetSplits(p);
    var h := NetName(p);
    var r := p[|h|..];
    var x, s, t := SplitPath(r);
    if r == "" {
      assert h == p;
      NetAlone(h);
    } else if t == "" && x == "" {
      assert r == s;
      NetEndInSeparators(h, s);
      var s' := s[..if |s| == 1 then 0 else 1] + ROOT;
      AppendRoot(h + s[..if |s| == 1 then 0 else 1]);
      assert h + s[..if |s| == 1 then 0 else 1] + ROOT == h + s';
      NetTexts(h, s');
      NetTexts(h, r);
      NothingButRoot(s);
      NothingButRoot(s');
    } else {
      assert p == h + (x + s + t) && r == x + s + t;
      assert IsSeparator(s[0]) && (x != "" ==> x[0] == r[0]);
      NetNamePutBack(h, x, s, t);
    }
  }

  lemma NetNamePutBack(h: string, x: string, s: string, t: string)
    requires IsNetName(h) && |h| > 2 && AllSeparators(s) && (t == "" || IsName(t))
    requires (x != "" ==> EndsInName(x) && IsSeparator(x[0]))
    requires x != "" || t != ""
    ensures var p := h + (x + s + t); Texts(Visited(Append(ParentPath(p), Filename(p)))) == Texts(Visited(p))
  {
    hide Filename, ParentPath, Visited, Texts, Append, Elements;
    var y, r := h + x, x + s + t;
    var p := h + r;
    var up, name := if x != "" then x else ROOT, if t != "" then t else DOT;
    NetJoined(h, x);
    NetJoined(h, r);
    EndsBehind(h, x);
    if t != "" {
      assert y + s + t == p;
      NetEndInName(y, s, t);
      assert x == "" ==> y == h;
    } else {
      assert y + s == p;
      EndInSeparators(y, s);
    }
    assert ParentPath(p) == h + up && Filename(p) == name;
    NetAppend(h, up, name);
    NetTexts(h, Append(up, name));
    NetTexts(h, r);
    TailTexts(x, s, t, r);
  }

  lemma EndsBehind(h: string, x: string)
    requires IsNetName(h) && |h| > 2 && (x != "" ==> EndsInName(x))
    ensures EndsInName(h + x)
  {
    assert (h + x)[|h + x| - 1] == if x != "" then x[|x| - 1] else h[|h| - 1];
  }

  lemma AppendRoot(p: string)
    ensures Append(p, ROOT) == p + ROOT
  {
  }

  /** Appending behind a network name. */
  lemma NetAppend(h: string, r: string, t: string)
    requires r != "" && IsSeparator(r[0]) && t != ""
    ensures Append(h + r, t) == h + Append(r, t) && Append(r, t) != "" && IsSeparator(Append(r, t)[0])
  {
    assert (h + r)[|h + r| - 1] == r[|r| - 1];
  }

  lemma TailTexts(x: string, s: string, t: string, r: string)
    requires r == x + s + t && AllSeparators(s) && (t == "" || IsName(t))
    requires (x != "" ==> EndsInName(x) && IsSeparator(x[0]))
    requires x != "" || t != ""
    ensures Texts(Elements(Append(if x != "" then x else ROOT, if t != "" then t else DOT))) == Texts(Elements(r))
  {
    hide Elements, Texts, Append;
    var name := if t != "" then t else DOT;
    if x != "" {
      AppendGlues(x, name);
      ElementsExtend(x, s, t);
      ElementsExtend(x, "/", name);
    } else {
      AppendGlues(ROOT, name);
      ElementsOfName(t);
      SeparatorsAndName(s, t);
    }
  }

  lemma SeparatorsAndName(s: string, t: string)
    requires AllSeparators(s) && IsName(t)
    ensures Texts(Elements("" + s + t)) == [ROOT, t]
  {
    var p := "" + s + t;
    SkipsTo(p, 0, |s|);
    NameEndsAt(p, |s|, |p|);
    assert p[|s|..|p|] == t;
  }

  /** `parent_path() / filename()` has the elements of the path it was taken from. */
  lemma ParentAndFilename(p: string)
    ensures Texts(Visited(Append(ParentPath(p), Filename(p)))) == Texts(Visited(p))
  {
    if IsNet(p) {
      NetPutBackTogether(p);
    } else {
      var x, s, t := SplitPath(p);
      PutBackTogether(x, s, t, p);
    }
  }

  // ---------- normalising, on texts ----------

  /** A last name that a following ".." takes away: not a dot, not a separator, no two characters with a dot. */
  predicate Removable(t: string) {
    && |t| > 0
    && (|t| != 1 || (t[0] != '.' && t[0] != '/'))
    && (|t| != 2 || (t[0] != '.' && t[1] != '.'))
  }

  /** One turn of the loop, for element `k` of `es`. */
  function NormalStep(es: seq<string>, k: nat, temp: seq<string>): seq<string>
    requires k < |es|
  {
    var n := |es|;
    if es[k] == DOT && k != 0 && k != n - 1 then temp
    else if temp != [] && es[k] == DOTDOT && Removable(temp[|temp| - 1]) then
      var rest := temp[..|temp| - 1];
      if rest == [] && k + 1 < n && k + 1 == n - 1 && es[n - 1] == DOT then [DOT] else rest
    else temp + [es[k]]
  }

  function NormalFirst(es: seq<string>, k: nat): seq<string>
    requires k <= |es|
  {
    if k == 0 then [] else NormalStep(es, k - 1, NormalFirst(es, k - 1))
  }

  function NormalTexts(es: seq<string>): seq<string> {
    var temp := NormalFirst(es, |es|);
    if temp == [] then [DOT] else temp
  }

  /** Where texts lead from a directory, given by the names on the way to it from the root. */
  function Resolve(cwd: seq<string>, ts: seq<string>): seq<string> {
    if ts == [] then cwd
    else
      var at, t := Resolve(cwd, ts[..|ts| - 1]), ts[|ts| - 1];
      if t == ROOT then []
      else if t == DOT then at
      else if t == DOTDOT then (if at == [] then [] else at[..|at| - 1])
      else at + [t]
  }

  lemma ResolveSnoc(cwd: seq<string>, ts: seq<string>, t: string)
    ensures var at := Resolve(cwd, ts);
      Resolve(cwd, ts + [t]) ==
        if t == ROOT then [] else if t == DOT then at
        else if t == DOTDOT then (if at == [] then [] else at[..|at| - 1]) else at + [t]
  {
    assert (ts + [t])[..|ts|] == ts;
  }

  lemma {:induction false} NormalFirstCanonical(es: seq<string>, k: nat)
    requires Canonical(es) && k <= |es|
    ensures Canonical(NormalFirst(es, k))
    ensures k > 0 && es[0] == ROOT ==> NormalFirst(es, k) != [] && NormalFirst(es, k)[0] == ROOT
    ensures NormalFirst(es, k) != [] && NormalFirst(es, k)[0] == ROOT ==> es[0] == ROOT
  {
    if k > 0 {
      NormalFirstCanonical(es, k - 1);
      assert IsName(DOT);
      assert !IsName(ROOT) by { assert IsSeparator(ROOT[0]); }
    }
  }

  /** After every turn, what has been kept leads where the elements so far lead. */
  lemma {:induction false} NormalFirstMeans(cwd: seq<string>, es: seq<string>, k: nat)
    requires k <= |es|
    ensures Resolve(cwd, NormalFirst(es, k)) == Resolve(cwd, es[..k])
  {
    hide Resolve;
    if k == 0 {
      assert es[..0] == [];
    } else {
      NormalFirstMeans(cwd, es, k - 1);
      var temp, t := NormalFirst(es, k - 1), es[k - 1];
      assert es[..k] == es[..k - 1] + [t];
      ResolveSnoc(cwd, es[..k - 1], t);
      ResolveSnoc(cwd, temp, t);
      if temp != [] {
        var rest, x := temp[..|temp| - 1], temp[|temp| - 1];
        assert temp == rest + [x];
        ResolveSnoc(cwd, rest, x);
        ResolveSnoc(cwd, [], DOT);
        assert [] + [DOT] == [DOT];
      }
    }
  }

  lemma NormalTextsMean(cwd: seq<string>, es: seq<string>)
    ensures Resolve(cwd, NormalTexts(es)) == Resolve(cwd, es)
  {
    NormalFirstMeans(cwd, es, |es|);
    assert es[..|es|] == es;
    ResolveSnoc(cwd, [], DOT);
    assert [] + [DOT] == [DOT];
  }

  // ---------- doing it twice ----------

  /** Dots only at the ends, and no ".." after something it would take away. */
  predicate IsNormal(ts: seq<string>, dotsEnd: int) {
    && (forall j :: 0 < j < |ts| && ts[j] == DOT ==> j >= dotsEnd)
    && (forall j :: 0 < j < |ts| && ts[j] == DOTDOT ==> !Removable(ts[j - 1]))
  }

  lemma {:induction false} NormalFirstIsNormal(es: seq<string>, k: nat)
    requires k <= |es|
    ensures var temp := NormalFirst(es, k); IsNormal(temp, if k < |es| then |temp| else |temp| - 1)
  {
    if k > 0 { NormalFirstIsNormal(es, k - 1); }
  }

  lemma {:induction false} NormalStays(ts: seq<string>, k: nat)
    requires ts != [] && IsNormal(ts, |ts| - 1) && k <= |ts|
    ensures NormalFirst(ts, k) == ts[..k]
  {
    if k > 0 { NormalStays(ts, k - 1); }
  }

  lemma NormalTextsTwice(es: seq<string>)
    ensures NormalTexts(NormalTexts(es)) == NormalTexts(es)
  {
    var ts := NormalTexts(es);
    NormalFirstIsNormal(es, |es|);
    NormalStays(ts, |ts|);
    assert ts[..|ts|] == ts;
  }

  // ---------- normalising, on strings ----------

  /** What normalising makes of a path that is not a network name. */
  function Normal(p: string): string {
    if p == "" then "" else Join(NormalTexts(Texts(Elements(p))))
  }

  lemma {:induction false} NamesAreNames(p: string, i: nat, k: nat)
    requires i < |p| && !IsSeparator(p[i]) && k < |NamesFrom(p, i)|
    ensures IsName(NamesFrom(p, i)[k].text)
    decreases |p| - i
  {
    var e := NameEnd(p, i);
    var j := SkipSeparators(p, e);
    if k > 0 && j < |p| { NamesAreNames(p, j, k - 1); }
  }

  lemma ElementsCanonical(p: string)
    ensures Canonical(Texts(Elements(p)))
    ensures p == "" <==> Elements(p) == []
  {
    var es := Elements(p);
    forall k | 0 <= k < |es| ensures IsName(es[k].text) || (k == 0 && es[k].text == ROOT) {
      if !IsSeparator(p[0]) { NamesAreNames(p, 0, k); }
      else if k > 0 { NamesAreNames(p, SkipSeparators(p, 0), k - 1); }
    }
  }

  lemma NormalTextsCanonical(es: seq<string>)
    requires Canonical(es)
    ensures Canonical(NormalTexts(es))
  {
    NormalFirstCanonical(es, |es|);
    assert IsName(DOT);
  }

  lemma NormalTextsNormal(es: seq<string>)
    ensures IsNormal(NormalTexts(es), |NormalTexts(es)| - 1)
  {
    NormalFirstIsNormal(es, |es|);
  }

  // ---------- what is left, without the loop ----------

  /** What an element does to the texts kept: a dot nothing, ".." takes a name away if it can, the others stay. */
  function Put(ts: seq<string>, t: string): seq<string> {
    if t == DOT then ts
    else if t == DOTDOT && ts != [] && Removable(ts[|ts| - 1]) then ts[..|ts| - 1]
    else ts + [t]
  }

  function Reduced(es: seq<string>): seq<string> {
    if es == [] then [] else Put(Reduced(es[..|es| - 1]), es[|es| - 1])
  }

  /** Dots, and names with ".." right behind them, can be left out anywhere. */
  lemma {:induction false} LeftOut(a: seq<string>, t: string, b: seq<string>)
    requires Removable(t)
    ensures Reduced(a + [DOT] + b) == Reduced(a + b) == Reduced(a + [t, DOTDOT] + b)
    decreases |b|
  {
    hide Removable;
    NotRemovable();
    if b == [] {
      assert a + b == a && a + [DOT] + b == a + [DOT] && a + [t, DOTDOT] + b == a + [t] + [DOTDOT];
      ReducedSnoc(a, DOT);
      ReducedSnoc(a, t);
      ReducedSnoc(a + [t], DOTDOT);
    } else {
      var n := |b| - 1;
      var init, last := b[..n], b[n];
      assert b == init + [last];
      assert a + [DOT] + b == (a + [DOT] + init) + [last] && a + b == (a + init) + [last];
      assert a + [t, DOTDOT] + b == (a + [t, DOTDOT] + init) + [last];
      ReducedSnoc(a + [DOT] + init, last);
      ReducedSnoc(a + init, last);
      ReducedSnoc(a + [t, DOTDOT] + init, last);
      LeftOut(a, t, init);
    }
  }

  lemma ReducedSnoc(es: seq<string>, t: string)
    ensures Reduced(es + [t]) == Put(Reduced(es), t)
  {
    assert (es + [t])[..|es|] == es;
  }

  /** And where there are none of them, nothing changes. */
  lemma {:induction false} NothingLeftOut(es: seq<string>)
    requires DOT !in es && forall j :: 0 < j < |es| && es[j] == DOTDOT ==> !Removable(es[j - 1])
    ensures Reduced(es) == es
    decreases |es|
  {
    if es != [] {
      var n := |es| - 1;
      NothingLeftOut(es[..n]);
      assert es == es[..n] + [es[n]];
    }
  }

  /** A first dot stays. */
  function Lead(es: seq<string>): seq<string> { if es != [] && es[0] == DOT then [DOT] else [] }

  /** One turn, with a first dot set apart. */
  lemma TurnPuts(es: seq<string>, k: nat, lead: seq<string>, r: seq<string>)
    requires 0 < k < |es| && (lead == [] || lead == [DOT])
    ensures var now, put := NormalStep(es, k, lead + r), Put(r, es[k]);
      if es[k] == DOT && k == |es| - 1 then now == lead + r + [DOT]
      else if lead == [] && es[k] == DOTDOT && put == [] && k + 1 == |es| - 1 && es[k + 1] == DOT then now == [DOT]
      else now == lead + put
  {
    hide Removable;
    NotRemovable();
    var temp := lead + r;
    if r != [] {
      assert temp[|temp| - 1] == r[|r| - 1] && temp[..|temp| - 1] == lead + r[..|r| - 1];
    }
    assert temp + [es[k]] == lead + (r + [es[k]]);
  }

  lemma FirstPuts(es: seq<string>)
    requires es != []
    ensures NormalFirst(es, 1) == Lead(es) + Reduced(es[..1]) && Reduced(es[..1]) == Put([], es[0])
  {
    assert NormalFirst(es, 0) == [] && es[..1][..0] == [];
  }

  /** What is kept before turn `k`, or a dot if that is nothing, ".." did it, and only a dot follows. */
  function KeptBy(es: seq<string>, k: nat): seq<string>
    requires 0 < k < |es|
  {
    var kept := Lead(es) + Reduced(es[..k]);
    if kept == [] && k == |es| - 1 && es[k] == DOT && es[k - 1] == DOTDOT then [DOT] else kept
  }

  lemma {:induction false} KeptSoFar(es: seq<string>, k: nat)
    requires 0 < k < |es|
    ensures NormalFirst(es, k) == KeptBy(es, k)
  {
    hide NormalStep, Put;
    if k == 1 {
      FirstPuts(es);
      OneKept(es[0]);
    } else {
      KeptSoFar(es, k - 1);
      assert es[..k] == es[..k - 1] + [es[k - 1]];
      ReducedSnoc(es[..k - 1], es[k - 1]);
      TurnPuts(es, k - 1, Lead(es), Reduced(es[..k - 1]));
    }
  }

  lemma OneKept(t: string)
    ensures Put([], t) == if t == DOT then [] else [t]
  {
  }

  /**
   * The normal form: what is left when dots, and names with ".." right behind them, are left out;
   * a first dot stays, a last dot stays, and a dot stands for nothing at all.
   */
  function NormalForm(es: seq<string>): seq<string> {
    var n, r := |es|, Reduced(es);
    var trail := if n > 1 && es[n - 1] == DOT then [DOT] else [];
    var nothing := r == [] && (trail == [] || es[n - 2] == DOTDOT);
    (if (n > 0 && es[0] == DOT) || nothing then [DOT] else []) + r + trail
  }

  lemma NormalTextsAre(es: seq<string>)
    ensures NormalTexts(es) == NormalForm(es)
  {
    hide NormalForm, NormalTexts;
    if |es| <= 1 { FewAre(es); } else if es[|es| - 1] == DOT { DotEndsAre(es); } else { OthersAre(es); }
  }

  lemma FewAre(es: seq<string>)
    requires |es| <= 1
    ensures NormalTexts(es) == NormalForm(es)
  {
    hide NormalStep, Put;
    if |es| == 1 {
      FirstPuts(es);
      assert es[..1] == es;
      OneKept(es[0]);
    }
  }

  lemma DotEndsAre(es: seq<string>)
    requires |es| > 1 && es[|es| - 1] == DOT
    ensures NormalTexts(es) == NormalForm(es)
  {
    hide NormalFirst, Put, Reduced;
    var n := |es|;
    KeptSoFar(es, n - 1);
    LastTurn(es);
    assert es == es[..n - 1] + [DOT];
    ReducedSnoc(es[..n - 1], DOT);
    DotPuts(Reduced(es[..n - 1]));
    assert Reduced(es) == Reduced(es[..n - 1]);
  }

  lemma OthersAre(es: seq<string>)
    requires |es| > 1 && es[|es| - 1] != DOT
    ensures NormalTexts(es) == NormalForm(es)
  {
    hide NormalStep, Put, Reduced;
    var n := |es|;
    KeptSoFar(es, n - 1);
    assert es == es[..n - 1] + [es[n - 1]];
    ReducedSnoc(es[..n - 1], es[n - 1]);
    TurnPuts(es, n - 1, Lead(es), Reduced(es[..n - 1]));
    assert NormalFirst(es, n) == Lead(es) + Reduced(es);
  }

  lemma DotPuts(r: seq<string>)
    ensures Put(r, DOT) == r
  {
  }

  /** The last turn, for a dot. */
  lemma LastTurn(es: seq<string>)
    requires |es| > 1 && es[|es| - 1] == DOT
    ensures NormalFirst(es, |es|) == NormalFirst(es, |es| - 1) + [DOT]
  {
    NotRemovable();
  }

  /** A last dot behind something else is kept. */
  lemma LastDotStays(es: seq<string>)
    requires es != [] && es[|es| - 1] != DOT
    ensures NormalTexts(es + [DOT]) == NormalTexts(es) + [DOT]
  {
    hide NormalTexts, Removable;
    NormalTextsAre(es);
    NormalTextsAre(es + [DOT]);
    ReducedSnoc(es, DOT);
    if Reduced(es) == [] { EndReduced(es); }
  }

  /** Nothing is left of elements that end in a name other than "..". */
  lemma EndReduced(es: seq<string>)
    requires es != [] && es[|es| - 1] != DOT && Reduced(es) == []
    ensures es[|es| - 1] == DOTDOT
  {
  }

  // ---------- names that ".." does not take away ----------

  /** A name of two characters, one of them a dot, that is not "..". */
  predicate DotName(t: string) { |t| == 2 && '.' in t && t != DOTDOT }

  /** Such a name directly before "..". */
  predicate KeepsDotName(ts: seq<string>) { exists j :: 0 < j < |ts| && ts[j] == DOTDOT && DotName(ts[j - 1]) }

  /** How many names the elements from `i` up to `j` leave; -1 if they also take away, or leave, something else. */
  function Height(es: seq<string>, i: nat, j: nat): (h: int)
    requires j <= |es|
    ensures h >= -1
  {
    if j <= i then 0
    else
      var h, t := Height(es, i, j - 1), es[j - 1];
      if h < 0 || t == DOT then h else if t == DOTDOT then h - 1 else if Removable(t) then h + 1 else -1
  }

  lemma HeightStep(es: seq<string>, i: nat, k: nat)
    requires 0 < k <= |es| && i <= k
    ensures i == k ==> Height(es, i, k) == 0
    ensures i < k ==> var h, t := Height(es, i, k - 1), es[k - 1];
      Height(es, i, k) ==
        if h < 0 || t == DOT then h else if t == DOTDOT then h - 1 else if Removable(t) then h + 1 else -1
  {
  }

  /** A dot name, elements that cancel out, and "..". */
  predicate MeetsDotName(es: seq<string>, i: nat, j: nat) {
    i < j < |es| && DotName(es[i]) && es[j] == DOTDOT && Height(es, i + 1, j) == 0
  }

  predicate AllRemovable(ts: seq<string>) { forall t :: t in ts ==> Removable(t) }

  /** The three things a turn can do: take the last text away, add one, or nothing. */
  lemma TurnShape(es: seq<string>, k: nat)
    requires 0 < k <= |es|
    ensures var before, now, t := NormalFirst(es, k - 1), NormalFirst(es, k), es[k - 1];
      var last := if before == [] then "" else before[|before| - 1];
      if t == DOTDOT && Removable(last) then now == before[..|before| - 1] || (|before| == 1 && now == [DOT])
      else now == before + [t] || (now == before && t == DOT)
    ensures es[k - 1] == DOT && 1 < k < |es| ==> NormalFirst(es, k) == NormalFirst(es, k - 1)
    ensures es[k - 1] != DOT && es[k - 1] != DOTDOT ==> NormalFirst(es, k) == NormalFirst(es, k - 1) + [es[k - 1]]
  {
  }

  /** The names that elements leave come on top of a dot name. */
  lemma {:induction false} LeftOnTop(es: seq<string>, i: nat, j: nat) returns (names: seq<string>)
    requires i < j < |es| && DotName(es[i]) && Height(es, i + 1, j) >= 0
    ensures NormalFirst(es, j) == NormalFirst(es, i) + [es[i]] + names
    ensures |names| == Height(es, i + 1, j) && AllRemovable(names)
  {
    hide NormalFirst;
    TurnShape(es, j);
    names := [];
    if j > i + 1 {
      var above := LeftOnTop(es, i, j - 1);
      var before, t := NormalFirst(es, j - 1), es[j - 1];
      if t == DOT {
        names := above;
      } else if t == DOTDOT {
        names := above[..|above| - 1];
        assert before[|before| - 1] == above[|above| - 1];
      } else {
        names := above + [t];
      }
    }
  }

  /** Where a kept dot name with nothing but names on top of it comes from. */
  lemma {:induction false} ComesFrom(es: seq<string>, k: nat, base: seq<string>, x: string, names: seq<string>)
    returns (i: nat)
    requires k <= |es| && NormalFirst(es, k) == base + [x] + names && DotName(x) && AllRemovable(names)
    ensures i < k && es[i] == x && Height(es, i + 1, k) == |names|
    decreases k
  {
    hide NormalFirst, Height, Removable;
    NothingKept(es);
    var before, now, t := NormalFirst(es, k - 1), NormalFirst(es, k), es[k - 1];
    TurnShape(es, k);
    NotRemovable();
    if now == before + [t] && names == [] {
      assert base + [x] + names == base + [x];
      SnocSame(before, t, base, x);
      i := k - 1;
    } else if now == before + [t] {
      var n := |names| - 1;
      assert base + [x] + names == (base + [x] + names[..n]) + [names[n]];
      SnocSame(before, t, base + [x] + names[..n], names[n]);
      i := ComesFrom(es, k - 1, base, x, names[..n]);
    } else if now == before {
      i := ComesFrom(es, k - 1, base, x, names);
    } else {
      var last := before[|before| - 1];
      assert before == now + [last];
      assert before == base + [x] + (names + [last]);
      i := ComesFrom(es, k - 1, base, x, names + [last]);
    }
    HeightStep(es, i + 1, k);
  }

  lemma NotRemovable()
    ensures !Removable("") && !Removable(DOT) && !Removable(DOTDOT) && !DotName(DOT)
  {
  }

  lemma SnocSame(a: seq<string>, x: string, b: seq<string>, y: string)
    requires a + [x] == b + [y]
    ensures a == b && x == y
  {
    assert (a + [x])[..|a|] == a && (b + [y])[..|b|] == b && (a + [x])[|a|] == x && (b + [y])[|b|] == y;
  }

  lemma NothingKept(es: seq<string>)
    ensures NormalFirst(es, 0) == []
  {
  }

  /** The last text kept before turn `k`. */
  function LastKept(es: seq<string>, k: nat): string
    requires k <= |es|
  {
    var kept := NormalFirst(es, k);
    if kept == [] then "" else kept[|kept| - 1]
  }

  lemma KeepsSnoc(ts: seq<string>, t: string)
    ensures KeepsDotName(ts + [t]) <==> KeepsDotName(ts) || (ts != [] && t == DOTDOT && DotName(ts[|ts| - 1]))
  {
    var more := ts + [t];
    if KeepsDotName(ts) {
      var j :| 0 < j < |ts| && ts[j] == DOTDOT && DotName(ts[j - 1]);
      assert more[j] == DOTDOT && DotName(more[j - 1]);
    }
    if ts != [] && t == DOTDOT && DotName(ts[|ts| - 1]) { assert more[|ts|] == DOTDOT && DotName(more[|ts| - 1]); }
  }

  /** After every turn: a dot name stands before ".." if and only if one was the last kept at a turn for "..". */
  lemma {:induction false} KeptAtTurn(es: seq<string>, k: nat)
    requires k <= |es|
    ensures KeepsDotName(NormalFirst(es, k)) <==> exists i :: 0 <= i < k && es[i] == DOTDOT && DotName(LastKept(es, i))
  {
    hide NormalFirst, KeepsDotName;
    NothingKept(es);
    NothingKeeps();
    if k > 0 {
      KeptAtTurn(es, k - 1);
      var before, t := NormalFirst(es, k - 1), es[k - 1];
      TurnShape(es, k);
      KeepsSnoc(before, t);
      if before != [] {
        var n := |before| - 1;
        assert before == before[..n] + [before[n]];
        KeepsSnoc(before[..n], before[n]);
      }
    }
  }

  lemma NothingKeeps()
    ensures !KeepsDotName([]) && !KeepsDotName([DOT])
  {
  }

  /**
   * Normalising leaves a name of two characters with a dot among them before ".." if and only if
   * such a name is followed by elements that cancel out and then by "..".
   */
  lemma KeepsDotNameExactly(es: seq<string>)
    ensures KeepsDotName(NormalTexts(es)) <==> exists i, j :: MeetsDotName(es, i, j)
  {
    hide NormalFirst, KeepsDotName, Height;
    KeptAtTurn(es, |es|);
    NothingKeeps();
    if i: nat, j: nat :| MeetsDotName(es, i, j) {
      var names := LeftOnTop(es, i, j);
      assert names == [] && LastKept(es, j) == es[i];
    }
    if j: nat :| j < |es| && es[j] == DOTDOT && DotName(LastKept(es, j)) {
      var kept := NormalFirst(es, j);
      assert kept == kept[..|kept| - 1] + [LastKept(es, j)] + [];
      var i := ComesFrom(es, j, kept[..|kept| - 1], LastKept(es, j), []);
      assert MeetsDotName(es, i, j);
    }
  }

  /**
   * A normalised path leads to the same place as the path itself, from every directory; it has
   * dots only at its ends and no ".." after a name that it would take away; and normalising it
   * again gives the same string.
   */
  lemma NormalKeepsThePlace(p: string, cwd: seq<string>)
    ensures Resolve(cwd, Texts(Elements(Normal(p)))) == Resolve(cwd, Texts(Elements(p)))
    ensures var ts := Texts(Elements(Normal(p))); IsNormal(ts, |ts| - 1)
    ensures Normal(Normal(p)) == Normal(p)
    ensures AtMostOneLeading(Normal(p))
    ensures p != "" && IsSeparator(p[0]) ==> Normal(p) != "" && IsSeparator(Normal(p)[0])
  {
    hide Elements, Texts, NormalTexts, Resolve, Join, IsNormal;
    if p == "" {
      ElementsOfNothing();
      NoTextsNormal();
    } else {
      var es := Texts(Elements(p));
      ElementsCanonical(p);
      NormalTextsCanonical(es);
      NormalTextsNormal(es);
      JoinElements(NormalTexts(es));
      JoinShape(NormalTexts(es));
      NormalTextsMean(cwd, es);
      NormalTextsTwice(es);
      NotEmpty(es);
      RootStays(p);
    }
  }

  lemma NoTextsNormal()
    ensures IsNormal([], -1)
  {
  }

  lemma RootStays(p: string)
    requires p != ""
    ensures IsSeparator(p[0]) ==> Normal(p) != "" && IsSeparator(Normal(p)[0])
  {
    hide NormalFirst, Join;
    var es := Texts(Elements(p));
    if IsSeparator(p[0]) {
      assert es[0] == ROOT;
      ElementsCanonical(p);
      NormalFirstCanonical(es, |es|);
      JoinStarts(NormalTexts(es));
    }
  }

  lemma {:induction false} JoinStarts(ts: seq<string>)
    requires ts != [] && ts[0] == ROOT
    ensures Join(ts) != "" && Join(ts)[0] == '/'
    decreases |ts|
  {
    if |ts| > 1 { JoinStarts(ts[..|ts| - 1]); }
  }

  /** The network name in front of a path, and what follows it. */
  function Net(p: string): string { if IsNet(p) then NetName(p) else "" }

  function Rest(p: string): string { if IsNet(p) then p[|NetName(p)|..] else p }

  /** What normalising makes of any path: the network name stays as it is. */
  function NormalPath(p: string): string { Net(p) + Normal(Rest(p)) }

  /** For every path. */
  lemma NormalPathKeepsThePlace(p: string, cwd: seq<string>)
    ensures var q := NormalPath(p);
      && Net(q) == Net(p) && (IsNet(q) <==> IsNet(p))
      && Resolve(cwd, Texts(Elements(Rest(q)))) == Resolve(cwd, Texts(Elements(Rest(p))))
      && IsNormal(Texts(Elements(Rest(q))), |Texts(Elements(Rest(q)))| - 1)
      && NormalPath(q) == q
  {
    hide Elements, Texts, Normal, Resolve, IsNormal;
    NormalKeepsThePlace(Rest(p), cwd);
    if IsNet(p) {
      NetSplits(p);
      if Rest(p) == "" { NormalOfNothing(); }
      NetJoined(Net(p), Normal(Rest(p)));
    } else {
      assert "" + Normal(p) == Normal(p);
    }
  }

  /** The same on paths. */
  lemma NormalPathKeepsDotName(p: string)
    ensures KeepsDotName(Texts(Elements(Rest(NormalPath(p))))) <==>
      exists i, j :: MeetsDotName(Texts(Elements(Rest(p))), i, j)
  {
    hide Elements, Texts, NormalTexts, Join, KeepsDotName, MeetsDotName;
    var r := Rest(p);
    var es := Texts(Elements(r));
    NormalPathRest(p);
    KeepsDotNameExactly(es);
    if r == "" {
      ElementsOfNothing();
      NothingMeets();
      NothingKeeps();
    } else {
      ElementsCanonical(r);
      NormalTextsCanonical(es);
      JoinElements(NormalTexts(es));
    }
  }

  /** The elements of a normalised path, for every path. */
  lemma NormalPathIs(p: string)
    ensures Texts(Elements(Rest(NormalPath(p)))) == if Rest(p) == "" then [] else NormalForm(Texts(Elements(Rest(p))))
  {
    hide Elements, Texts, NormalTexts, NormalForm, Join;
    var r := Rest(p);
    var es := Texts(Elements(r));
    NormalPathRest(p);
    if r == "" {
      ElementsOfNothing();
    } else {
      ElementsCanonical(r);
      NormalTextsCanonical(es);
      NormalTextsAre(es);
      JoinElements(NormalTexts(es));
    }
  }

  function LastText(p: string): string {
    var es := Texts(Elements(p));
    if es == [] then "" else es[|es| - 1]
  }

  /** Separators at the end of a path without a network name. */
  lemma NormalWithTrail(x: string, s: string)
    requires EndsInName(x) && AllSeparators(s) && LastText(x) != DOT
    ensures Normal(x + s) == Append(Normal(x), DOT) && Normal(x) != ""
  {
    hide Elements, Texts, NormalTexts, Join;
    var es := Texts(Elements(x));
    ElementsCanonical(x);
    assert x + s + "" == x + s;
    ElementsExtend(x, s, "");
    LastDotStays(es);
    JoinSnoc(NormalTexts(es), DOT);
    NormalTextsCanonical(es);
    JoinShape(NormalTexts(es));
    NotEmpty(es);
  }

  /** A separator at the end of a path is kept as a last dot, unless a dot or only a network name is before it. */
  lemma TrailingSeparatorStays(x: string, s: string)
    requires EndsInName(x) && AllSeparators(s)
    requires Rest(x) != "" && LastText(Rest(x)) != DOT
    ensures NormalPath(x + s) == Append(NormalPath(x), DOT)
  {
    hide Elements, Texts, Normal, Append;
    if IsNet(x) {
      NetTrail(x, s);
    } else {
      assert x + "" == x;
      NotNetBefore(x, "", s);
      NormalWithTrail(x, s);
      assert "" + Normal(x + s) == Normal(x + s) && "" + Normal(x) == Normal(x);
    }
  }

  lemma NetTrail(x: string, s: string)
    requires EndsInName(x) && AllSeparators(s) && IsNet(x)
    requires Rest(x) != "" && LastText(Rest(x)) != DOT
    ensures NormalPath(x + s) == Append(NormalPath(x), DOT)
  {
    hide Elements, Texts, Normal, Append;
    var h, r := NetName(x), Rest(x);
    NetSplits(x);
    assert r[|r| - 1] == x[|x| - 1];
    assert x + s == h + (r + s);
    NetJoined(h, r + s);
    NormalWithTrail(r, s);
    NormalKeepsThePlace(r, []);
    NetAppend(h, Normal(r), DOT);
  }

  /** A name, perhaps "..", and a separator. */
  lemma NameWithTrail(t: string, up: bool)
    requires IsName(t) && t != DOT
    ensures var x := if up then t + "/.." else t; NormalPath(x + "/") == Append(NormalPath(x), DOT)
  {
    hide NormalPath, Elements, Texts, Append;
    var x := if up then t + "/.." else t;
    ElementsOfName(t);
    if up {
      assert t + "/" + ".." == x && EndsInName(t);
      ElementsExtend(t, "/", "..");
      assert [t] + [DOTDOT] == [t, DOTDOT];
    }
    assert !IsNet(x) && Rest(x) == x;
    TrailingSeparatorStays(x, "/");
  }

  lemma OneName(t: string)
    requires IsName(t)
    ensures NormalPath(t) == t
  {
    hide Elements, Texts;
    ElementsOfName(t);
    assert NormalFirst([t], 0) == [] && NormalFirst([t], 1) == [t];
    JoinOne(t);
    assert !IsNet(t) && "" + t == t;
  }

  /** Such as here. */
  lemma TrailExample()
    ensures NormalPath("foo/../") == "./." && NormalPath("foo/") == "foo/."
  {
    hide NormalPath, Elements, Texts;
    DotDotBehind("foo");
    NameWithTrail("foo", true);
    NameWithTrail("foo", false);
    OneName("foo");
    assert "foo" + "/.." + "/" == "foo/../" && "foo" + "" + "/" == "foo/" && "foo" + "" == "foo";
  }

  lemma NothingMeets()
    ensures forall i, j :: !MeetsDotName([], i, j)
  {
  }

  lemma NormalPathRest(p: string)
    ensures Rest(NormalPath(p)) == Normal(Rest(p))
  {
    hide Elements, Texts, Normal;
    NormalPathKeepsThePlace(p, []);
    assert Net(NormalPath(p)) + Rest(NormalPath(p)) == NormalPath(p);
  }

  /** The names that a following ".." does not take away. */
  lemma StaysBeforeDotDot(t: string)
    requires IsName(t)
    ensures !Removable(t) <==> t == DOT || t == DOTDOT || DotName(t)
  {
    if |t| == 1 { assert !IsSeparator(t[0]); }
  }

  /** A name and "..": what is left. */
  lemma DotDotBehind(t: string)
    requires IsName(t)
    ensures NormalPath(t + "/..") == if t == DOT || t == DOTDOT || DotName(t) then t + "/.." else DOT
  {
    hide Elements, Texts, NormalTexts, Join;
    var p := t + "/..";
    ElementsOfName(t);
    assert t + "/" + ".." == p && EndsInName(t);
    ElementsExtend(t, "/", "..");
    assert !IsNet(p);
    assert [t] + [DOTDOT] == [t, DOTDOT] && "" + Normal(p) == Normal(p);
    StaysBeforeDotDot(t);
    TwoTexts(t);
    JoinOne(DOT);
    JoinTwo(t);
  }

  lemma TwoTexts(t: string)
    requires IsName(t)
    ensures NormalTexts([t, DOTDOT]) == if Removable(t) then [DOT] else [t, DOTDOT]
  {
    var es := [t, DOTDOT];
    assert NormalFirst(es, 1) == NormalStep(es, 0, NormalFirst(es, 0)) == [t];
    assert NormalFirst(es, 2) == NormalStep(es, 1, [t]) && [t][..0] == [];
  }

  lemma JoinOne(t: string)
    requires IsName(t)
    ensures Join([t]) == t
  {
    assert [t][..0] == [];
  }

  lemma JoinTwo(t: string)
    requires IsName(t)
    ensures Join([t, DOTDOT]) == t + "/.."
  {
    JoinOne(t);
    assert [t, DOTDOT][..1] == [t];
    assert t + "/" + DOTDOT == t + "/..";
  }

  /** Such as here, where ".." takes nothing away; a name without a dot goes. */
  lemma DotNameExample()
    ensures NormalPath("a./..") == "a./.." && NormalPath("ab/..") == "."
  {
    hide NormalPath;
    DotDotBehind("a.");
    DotDotBehind("ab");
    assert "a." + "/.." == "a./.." && "ab" + "/.." == "ab/..";
  }

  lemma NormalOfNothing()
    ensures Normal("") == ""
  {
  }

  lemma NotEmpty(es: seq<string>)
    ensures NormalTexts(es) != []
  {
  }

  // ---------- the loop ----------

  lemma {:induction false} PositionsRise(p: string, i: nat, j: nat)
    requires i < j <= |Visited(p)|
    ensures Visited(p)[i].pos < if j < |Visited(p)| then Visited(p)[j].pos else |p|
  {
    hide Visited, After;
    VisitedStep(p, j - 1);
    if i + 1 < j { PositionsRise(p, i, j - 1); }
  }

  lemma EndToName(p: string, i: nat)
    requires PastNet(p, i) && IsNameAt(p, i, |p|) && !IsNet(p)
    ensures Before(p, |p|) == Element(i, p[i..|p|])
  {
    LastSeparatorIs(p, |p|, i - 1);
  }

  lemma {:induction false} LastName(p: string, i: nat)
    requires !IsNet(p) && i < |p| && IsNameAt(p, i, NameEnd(p, i))
    ensures Before(p, |p|) == NamesFrom(p, i)[|NamesFrom(p, i)| - 1]
    decreases |p| - i
  {
    hide Before, NameEnd, SkipSeparators;
    var e := NameEnd(p, i);
    var j := SkipSeparators(p, e);
    if e == |p| {
      EndToName(p, i);
    } else if j == |p| {
      BackToDot(p, e);
    } else {
      assert IsNameAt(p, j, NameEnd(p, j));
      LastName(p, j);
    }
  }

  /** The last element, reached by decrementing the end; a path of nothing but separators may show another one. */
  lemma LastElement(p: string)
    requires p != ""
    ensures var es := Visited(p);
      (|es| == 1 && (es[0].text == ROOT || Before(p, |p|).pos == es[0].pos)) || Before(p, |p|) == es[|es| - 1]
  {
    if p == "//" {
      NothingFromBehind();
    } else if IsNet(p) {
      NetStepsBack(p, |Visited(p)| - 1);
    } else if !IsSeparator(p[0]) {
      LastName(p, 0);
    } else {
      var j := SkipSeparators(p, 0);
      if j < |p| {
        assert IsNameAt(p, j, NameEnd(p, j));
        LastName(p, j);
      }
    }
  }

  /** An iterator that shows something moves on. */
  lemma IncrementAdvances(p: string, it: Element)
    requires Dereferenceable(p, it) && it.text != ""
    ensures var n := After(p, it); n.pos > it.pos && (n.pos == |p| || (Dereferenceable(p, n) && n.text != ""))
  {
  }

  lemma BeginShows(p: string)
    requires p != ""
    ensures Dereferenceable(p, Begin(p)) && Begin(p).text != ""
  {
  }

  /** What has been put together before turn `k`. */
  ghost function KeptBefore(p: string, k: nat): string
    requires k <= |Visited(p)|
  {
    if !IsNet(p) then Join(NormalFirst(Texts(Elements(p)), k))
    else if k == 0 then ""
    else if k - 1 <= |Texts(Elements(Rest(p)))| then NetName(p) + Join(NormalFirst(Texts(Elements(Rest(p))), k - 1))
    else ""
  }

  /** What the loop knows at its `k`-th turn. */
  ghost predicate AtTurn(p: string, k: nat, itr: Element, temp: string) {
    && k <= |Visited(p)|
    && itr == (if k < |Visited(p)| then Visited(p)[k] else End(p))
    && temp == KeptBefore(p, k)
  }

  /** What the iterators of the loop show at its `k`-th turn. */
  lemma TurnIterators(p: string, k: nat, itr: Element)
    requires k < |Visited(p)| && itr == Visited(p)[k] && Dereferenceable(p, itr)
    ensures var es := Visited(p);
      && After(p, itr) == NextOf(p, es, k)
      && (itr.pos == Begin(p).pos <==> k == 0)
      && (itr.text != ROOT ==> (itr.pos == Before(p, |p|).pos <==> k == |es| - 1))
      && (NextOf(p, es, k).pos == |p| <==> k + 1 == |es|)
      && (k + 1 < |es| ==> (NextOf(p, es, k).pos == Before(p, |p|).pos <==> k + 1 == |es| - 1))
      && (|es| > 1 ==> Before(p, |p|).text == es[|es| - 1].text)
  {
    hide Visited, After, Before, Begin;
    var es := Visited(p);
    BeginsThere(p);
    VisitedStep(p, k);
    LastElement(p);
    if k > 0 { PositionsRise(p, 0, k); }
    if k + 1 < |es| {
      PositionsRise(p, k, |es| - 1);
      PositionsRise(p, k + 1, |es|);
      if k + 2 < |es| { PositionsRise(p, k + 1, |es| - 1); }
    }
  }

  /** What the string of the kept texts shows. */
  lemma TurnStrings(kept: seq<string>, temp: string)
    requires Canonical(kept) && temp == Join(kept)
    ensures temp == "" <==> kept == []
    ensures kept != [] ==> Filename(temp) == kept[|kept| - 1]
    ensures kept != [] && Removable(kept[|kept| - 1]) ==>
      ParentPathEnd(temp) >= 0 && ParentPath(temp) == Join(kept[..|kept| - 1])
    ensures kept != [] && Removable(kept[|kept| - 1]) ==> (ParentPath(temp) == "" <==> |kept| == 1)
  {
    hide Filename, ParentPath, ParentPathEnd, Join;
    JoinShape(kept);
    if kept != [] {
      JoinTakenApart(kept);
      JoinShape(kept[..|kept| - 1]);
    }
  }

  lemma JoinSnoc(ts: seq<string>, t: string)
    ensures Join(ts + [t]) == Append(Join(ts), t)
  {
    assert (ts + [t])[..|ts|] == ts;
  }

  /** One turn of the loop on strings, as the body below does it. */
  function TurnResult(p: string, itr: Element, start: Element, last: Element, temp: string): string
    requires Dereferenceable(p, itr)
  {
    if itr.text == DOT && itr.pos != start.pos && itr.pos != last.pos then temp
    else if temp != "" && itr.text == DOTDOT && Removable(Filename(temp)) then
      var cut := if ParentPathEnd(temp) == NPOS then temp else ParentPath(temp);
      var next := After(p, itr);
      if cut == "" && next.pos != |p| && next.pos == last.pos && last.text == DOT then Append(cut, DOT) else cut
    else Append(temp, itr.text)
  }

  lemma PlainTurn(p: string, k: nat, itr: Element, temp: string)
    requires !IsNet(p) && p != "" && k < |Visited(p)| && AtTurn(p, k, itr, temp) && Dereferenceable(p, itr)
    ensures AtTurn(p, k + 1, After(p, itr), TurnResult(p, itr, Begin(p), Before(p, |p|), temp))
  {
    hide Elements, After, Before, Begin, Filename, ParentPath, ParentPathEnd, Removable, Append, Join;
    var ts := Texts(Elements(p));
    var kept := NormalFirst(ts, k);
    TurnIterators(p, k, itr);
    ElementsCanonical(p);
    NormalFirstCanonical(ts, k);
    TurnStrings(kept, temp);
    JoinSnoc(kept, itr.text);
    JoinSnoc([], DOT);
    assert [] + [DOT] == [DOT];
  }

  /** A network name, then a root or something that ends in a name, then a name. */
  lemma NetTakenApart(h: string, r: string, t: string)
    requires IsNetName(h) && |h| > 2 && IsName(t) && (r == ROOT || (EndsInName(r) && IsSeparator(r[0])))
    ensures Filename(h + Glue(r, t)) == t && ParentPathEnd(h + Glue(r, t)) >= 0 && ParentPath(h + Glue(r, t)) == h + r
  {
    hide Filename, ParentPath, ParentPathEnd;
    if r == ROOT {
      assert h + (r + t) == h + ROOT + t;
      EndsBehind(h, "");
      assert h + "" == h;
      NetEndInName(h, ROOT, t);
    } else {
      NetJoined(h, r);
      EndsBehind(h, r);
      NetNameLonger(h, r);
      assert h + (r + "/" + t) == h + r + "/" + t;
      NetEndInName(h + r, "/", t);
    }
  }

  /** What a network name and the string of the kept texts show. */
  lemma NetTurnStrings(h: string, kept: seq<string>)
    requires IsNetName(h) && |h| > 2 && Canonical(kept) && kept != [] && kept[0] == ROOT
    ensures Filename(h + Join(kept)) == kept[|kept| - 1]
    ensures |kept| > 1 ==>
      ParentPathEnd(h + Join(kept)) >= 0 && ParentPath(h + Join(kept)) == h + Join(kept[..|kept| - 1])
  {
    hide Filename, ParentPath, ParentPathEnd, Join, Glue, IsNetName;
    var n := |kept| - 1;
    var init, t := kept[..n], kept[n];
    JoinShape(kept);
    if n == 0 {
      assert kept == [ROOT] && AllSeparators(ROOT);
      NetEndInSeparators(h, ROOT);
    } else {
      JoinShape(init);
      JoinStarts(init);
      NetTakenApart(h, Join(init), t);
    }
  }

  lemma NetNameLonger(h: string, r: string)
    requires r != "" && IsNet(h + r) && NameEnd(h + r, 2) == |h|
    ensures !IsNetName(h + r)
  {
  }

  lemma NetTurn(p: string, k: nat, itr: Element, temp: string)
    requires IsNet(p) && k < |Visited(p)| && AtTurn(p, k, itr, temp) && Dereferenceable(p, itr)
    ensures AtTurn(p, k + 1, After(p, itr), TurnResult(p, itr, Begin(p), Before(p, |p|), temp))
  {
    hide Elements, Visited, After, Before, Begin, Filename, ParentPath, ParentPathEnd, Append, Join, IsNetName, Texts;
    var h, ts := NetName(p), Texts(Elements(Rest(p)));
    NetSplits(p);
    NetTexts(h, Rest(p));
    TurnIterators(p, k, itr);
    TextAt(Visited(p), k);
    assert |Visited(p)| == 1 + |ts|;
    if k == 0 {
      NetBegins(h);
      assert itr.text == h && h + "" == h;
      JoinNothing();
    } else {
      RestRooted(Rest(p));
      ElementsCanonical(Rest(p));
      var kept, t := NormalFirst(ts, k - 1), ts[k - 1];
      assert itr.text == t;
      NormalFirstCanonical(ts, k - 1);
      if k == 1 {
        JoinNothing();
        JoinRoot();
        AppendRoot(h);
        assert h + "" == h && [] + [ROOT] == [ROOT];
      } else {
        NetTurnStrings(h, kept);
        JoinStarts(kept);
        JoinSnoc(kept, t);
        NetAppend(h, Join(kept), t);
        TextAt(Visited(p), |ts|);
      }
    }
  }

  lemma TextAt(es: seq<Element>, k: nat)
    requires k < |es|
    ensures Texts(es)[k] == es[k].text
  {
  }

  lemma NetBegins(h: string)
    requires IsNet(h)
    ensures h != DOT && h != DOTDOT && Append("", h) == h
  {
    assert h != DOTDOT by { assert IsSeparator(h[0]) && !IsSeparator(DOTDOT[0]); }
  }

  lemma JoinNothing()
    ensures Join([]) == ""
  {
  }

  lemma JoinRoot()
    ensures Join([ROOT]) == ROOT
  {
  }

  lemma RestRooted(r: string)
    requires r == "" || IsSeparator(r[0])
    ensures r != "" ==> Texts(Elements(r)) != [] && Texts(Elements(r))[0] == ROOT
    ensures r == "" ==> Texts(Elements(r)) == []
  {
  }

  /** Normalises a path: what comes out is its normal form, for every path. */
  method LexicallyNormal(p: string) returns (temp: string)
    ensures temp == NormalPath(p)
  {
    hide Elements, Visited, After, Before, Begin, KeptBefore, TurnResult;
    if p == "" {
      NormalOfNothing();
      return p;
    }
    temp := "";
    var start, stop, last := Begin(p), End(p), Before(p, |p|);
    var itr := start;
    ghost var k := 0;
    BeginShows(p);
    FirstTurn(p);
    while itr.pos != stop.pos
      invariant itr.pos == |p| || (Dereferenceable(p, itr) && itr.text != "")
      invariant AtTurn(p, k, itr, temp)
      decreases |p| - itr.pos
    {
      IncrementAdvances(p, itr);
      temp := Turn(p, itr, start, last, temp, k);
      itr := After(p, itr);
      k := k + 1;
    }
    AllTurns(p, k, itr, temp);
    if temp == "" {
      temp := Append(temp, DOT);
    }
  }

  lemma FirstTurn(p: string)
    requires p != ""
    ensures AtTurn(p, 0, Begin(p), "")
  {
    hide Elements, Begin;
    ForwardVisitsElements(p);
    if !IsNet(p) { ElementsCanonical(p); }
  }

  lemma AllTurns(p: string, k: nat, itr: Element, temp: string)
    requires p != "" && AtTurn(p, k, itr, temp) && itr.pos == |p|
    ensures NormalPath(p) == if temp == "" then Append(temp, DOT) else temp
  {
    hide Elements, Visited, After, NormalFirst, Texts, Join, IsNetName;
    ForwardVisitsElements(p);
    assert k == |Visited(p)|;
    var ts := Texts(Elements(Rest(p)));
    ElementsCanonical(Rest(p));
    NormalFirstCanonical(ts, |ts|);
    JoinShape(NormalFirst(ts, |ts|));
    if IsNet(p) {
      NetSplits(p);
      NetTexts(NetName(p), Rest(p));
      RestRooted(Rest(p));
      if Rest(p) == "" { NothingKept([]); JoinNothing(); }
    } else {
      VisitedPlain(p);
      JoinSnoc([], DOT);
      assert [] + [DOT] == [DOT];
      JoinNothing();
    }
  }

  lemma VisitedPlain(p: string)
    requires !IsNet(p)
    ensures Visited(p) == Elements(p)
  {
  }

  /** The body of the loop: one turn more. */
  method Turn(p: string, itr: Element, start: Element, last: Element, before: string, ghost k: nat)
    returns (temp: string)
    requires p != "" && Dereferenceable(p, itr) && itr.text != "" && start == Begin(p) && last == Before(p, |p|)
    requires AtTurn(p, k, itr, before)
    ensures AtTurn(p, k + 1, After(p, itr), temp)
  {
    hide Visited, After, Before, Begin, Filename, ParentPathEnd, Removable, Append, KeptBefore;
    assert k < |Visited(p)|;
    if IsNet(p) { NetTurn(p, k, itr, before); } else { PlainTurn(p, k, itr, before); }
    temp := before;
    if itr.text == DOT && itr.pos != start.pos && itr.pos != last.pos {
      return;
    }
    if temp != "" && itr.text == DOTDOT {
      var lf := Filename(temp);
      if Removable(lf) {
        // `remove_filename` would throw on NPOS; it never gets here with a removable filename
        var end := ParentPathEnd(temp);
        temp := if end == NPOS then temp else temp[..end];
        if temp == "" {
          var next := After(p, itr);
          if next.pos != |p| && next.pos == last.pos && last.text == DOT {
            temp := Append(temp, DOT);
          }
        }
        return;
      }
    }
    temp := Append(temp, itr.text);
  }
}
