/**
 * Which texts are IPv6 addresses for the parser of thirdparty/libuv-1.30.1/src/inet.c: groups of one
 * to four hexadecimal digits, in upper or lower case, joined by colons; an IPv4 address may stand for
 * the last two; and two colons in a row may stand, once, for one or more groups of zeros
 * (section 2.2 of RFC 4291).
 */
module InetGrammar {
  import opened Words
  import opened InetAddress

  // ---------- the pieces between colons ----------

  predicate IsHexGroup(t: string) { 1 <= |t| <= 4 && AllHex(t) }

  predicate AllHex(t: string) { forall i :: 0 <= i < |t| ==> DigitValue(t[i]) < 16 }

  predicate IsV4(t: string) { Parse4(t, [], 0, false).Some? }

  function HexValue(t: string): nat
    requires AllHex(t)
  {
    if t == "" then 0 else HexValue(t[..|t| - 1]) * 16 + DigitValue(t[|t| - 1])
  }

  lemma {:induction false} HexFits(t: string)
    requires AllHex(t)
    ensures HexValue(t) < Power(16, |t|)
    ensures |t| <= 4 ==> HexValue(t) < 0x10000
  {
    if t == "" { PowerGrows(0); } else {
      HexFits(t[..|t| - 1]);
      PowerGrows(|t| - 1);
    }
    if |t| <= 4 { PowerGrows(|t|); }
  }

  lemma HexSnoc(t: string, c: char)
    requires AllHex(t) && DigitValue(c) < 16
    ensures AllHex(t + [c]) && HexValue(t + [c]) == HexValue(t) * 16 + DigitValue(c)
  {
    assert (t + [c])[..|t|] == t;
  }

  /** The octets a piece stands for. */
  function PieceOctets(t: string): (a: octets)
    requires IsHexGroup(t) || IsV4(t)
    ensures |a| == if IsHexGroup(t) then 2 else 4
  {
    if IsHexGroup(t) then
      HexFits(t);
      [HexValue(t) / 256, HexValue(t) % 256]
    else
      AcceptsOnlyPrinted4(t, [], 0, false);
      Parse4(t, [], 0, false).value
  }

  /** Hexadecimal groups, of which the last may be an IPv4 address if `v4`. */
  predicate ArePieces(ts: seq<string>, v4: bool) {
    forall i :: 0 <= i < |ts| ==> IsHexGroup(ts[i]) || (v4 && i == |ts| - 1 && IsV4(ts[i]))
  }

  function Colons(ts: seq<string>): string {
    if ts == [] then "" else if |ts| == 1 then ts[0] else ts[0] + ":" + Colons(ts[1..])
  }

  function PiecesOctets(ts: seq<string>): octets
    requires ArePieces(ts, true)
  {
    if ts == [] then [] else PieceOctets(ts[0]) + PiecesOctets(ts[1..])
  }

  // ---------- the texts ----------

  /** The pieces before the run that is left out, and after it; without a run, all of them come before. */
  datatype Form = Form(pre: seq<string>, run: bool, post: seq<string>)

  predicate IsForm(f: Form) {
    && ArePieces(f.pre, !f.run) && ArePieces(f.post, true) && (!f.run ==> f.post == [])
  }

  /** Enough for an address; a run stands for something. */
  predicate IsComplete(f: Form)
    requires IsForm(f)
  {
    WeakerPieces(f.pre, !f.run);
    if f.run then |PiecesOctets(f.pre)| + |PiecesOctets(f.post)| < 16 else |PiecesOctets(f.pre)| == 16
  }

  lemma WeakerPieces(ts: seq<string>, v4: bool)
    requires ArePieces(ts, v4)
    ensures ArePieces(ts, true)
  {
  }

  function FormText(f: Form): string {
    if f.run then Colons(f.pre) + "::" + Colons(f.post) else Colons(f.pre)
  }

  function FormOctets(f: Form): octets
    requires IsForm(f) && IsComplete(f)
  {
    WeakerPieces(f.pre, !f.run);
    var pre, post := PiecesOctets(f.pre), PiecesOctets(f.post);
    if f.run then pre + Zeros(16 - |pre| - |post|) + post else pre
  }

  /** `src` is a text of `a`. */
  predicate IsTextOf(src: string, a: octets, f: Form) {
    IsForm(f) && IsComplete(f) && src == FormText(f) && a == FormOctets(f)
  }

  // ---------- from a point where a piece starts ----------

  /** What is left of a text: after a colon, a run shows only one more. */
  function RestText(f: Form): string {
    if f.run && f.pre == [] then ":" + Colons(f.post) else FormText(f)
  }

  /** What the parser makes of it, after `out`. */
  function RestResult(f: Form, out: octets, colon: Option<nat>): (r: Option<octets>)
    requires IsForm(f) && (colon.Some? ==> colon.value <= |out|)
  {
    WeakerPieces(f.pre, !f.run);
    var all := out + PiecesOctets(f.pre);
    if |all + PiecesOctets(f.post)| > 16 then None
    else Finish(all + PiecesOctets(f.post), if f.run then Some(|all|) else colon)
  }

  // ---------- every such text is accepted ----------

  lemma CutAt(t: string, k: nat, rest: string)
    requires k < |t|
    ensures t[..k + 1] == t[..k] + [t[k]] && t[k..] + rest == [t[k]] + (t[k + 1..] + rest)
    ensures ([t[k]] + (t[k + 1..] + rest))[1..] == t[k + 1..] + rest
  {
    assert t[k..] == [t[k]] + t[k + 1..];
  }

  lemma HexPart(t: string, k: nat)
    requires AllHex(t) && k <= |t|
    ensures AllHex(t[..k]) && (k < |t| ==> DigitValue(t[k]) < 16)
  {
  }

  lemma {:induction false} ReadsHex(t: string, k: nat, rest: string, tok: string, out: octets, colon: Option<nat>)
    requires |t| <= 4 && AllHex(t) && k <= |t| && |out| <= 16 && (colon.Some? ==> colon.value <= |out|)
    ensures AllHex(t[..k]) && HexValue(t[..k]) < Power(16, k) && HexValue(t) < Power(16, |t|)
    ensures Parse6(t[k..] + rest, tok, k, HexValue(t[..k]), out, colon)
      == Parse6(rest, tok, |t|, HexValue(t), out, colon)
    decreases |t| - k
  {
    hide Parse6, Power, DigitValue, HexValue, AllHex;
    HexFits(t);
    HexPart(t, k);
    HexFits(t[..k]);
    if k == |t| {
      assert t[..k] == t && t[k..] + rest == rest;
    } else {
      var c, more := t[k], t[k + 1..] + rest;
      CutAt(t, k, rest);
      HexSnoc(t[..k], c);
      Parse6Step([c] + more, tok, k, HexValue(t[..k]), out, colon);
      ReadsHex(t, k + 1, rest, tok, out, colon);
    }
  }

  lemma StartsAtZero(t: string)
    ensures t[..0] == "" && t[0..] == t && Power(16, 0) == 1
  {
  }

  lemma ReadsPieceAndColon(t: string, rest: string, tok: string, out: octets, colon: Option<nat>)
    requires IsHexGroup(t) && rest != "" && |out| + 2 <= 16 && (colon.Some? ==> colon.value <= |out|)
    ensures Power(16, 0) == 1
    ensures Parse6(t + ":" + rest, tok, 0, 0, out, colon) == Parse6(rest, rest, 0, 0, out + PieceOctets(t), colon)
  {
    hide Parse6, Power, DigitValue;
    var tail := ":" + rest;
    assert t + ":" + rest == t + tail && tail[1..] == rest;
    StartsAtZero(t);
    ReadsHex(t, 0, tail, tok, out, colon);
    HexFits(t);
    assert !(DigitValue(':') < 16) by { NotADigit(); }
    Parse6Step(tail, tok, |t|, HexValue(t), out, colon);
  }

  lemma NotADigit()
    ensures DigitValue(':') == 16 && DigitValue('.') == 16
  {
  }

  lemma ReadsLastPiece(t: string, out: octets, colon: Option<nat>)
    requires (IsHexGroup(t) || IsV4(t)) && |out| + |PieceOctets(t)| <= 16 && (colon.Some? ==> colon.value <= |out|)
    ensures Power(16, 0) == 1 && Parse6(t, t, 0, 0, out, colon) == Finish(out + PieceOctets(t), colon)
  {
    hide Parse6, Power, DigitValue, Finish, Parse4;
    StartsAtZero(t);
    if IsHexGroup(t) {
      assert t + "" == t;
      ReadsHex(t, 0, "", t, out, colon);
      HexFits(t);
      Parse6Ends(t, |t|, HexValue(t), out, colon);
    } else {
      AcceptsOnlyPrinted4(t, [], 0, false);
      assert Written4([], 0, false) + t == t;
      ReadsV4(Parse4(t, [], 0, false).value, out, colon);
    }
  }

  /** Pieces joined by colons, with something else after another colon. */
  lemma {:induction false} ReadsPiecesThen(ts: seq<string>, rest: string, tok: string, out: octets, colon: Option<nat>)
    requires ArePieces(ts, false) && ts != [] && rest != "" && (colon.Some? ==> colon.value <= |out|)
    requires ArePieces(ts, true) && |out| + |PiecesOctets(ts)| <= 16
    ensures Power(16, 0) == 1
    ensures Parse6(Colons(ts) + ":" + rest, tok, 0, 0, out, colon)
      == Parse6(rest, rest, 0, 0, out + PiecesOctets(ts), colon)
    decreases |ts|
  {
    hide Parse6, Power, IsHexGroup, IsV4, PieceOctets;
    var t, more := ts[0], ts[1..];
    PiecesCons(ts);
    if more == [] {
      assert PiecesOctets(more) == [];
      assert out + PiecesOctets(ts) == out + PieceOctets(t);
      ReadsPieceAndColon(t, rest, tok, out, colon);
    } else {
      var tail := Colons(more) + ":" + rest;
      assert Colons(ts) + ":" + rest == t + ":" + tail;
      ReadsPieceAndColon(t, tail, tok, out, colon);
      ReadsPiecesThen(more, rest, tail, out + PieceOctets(t), colon);
      assert out + PieceOctets(t) + PiecesOctets(more) == out + PiecesOctets(ts);
    }
  }

  lemma PiecesCons(ts: seq<string>)
    requires ArePieces(ts, true) && ts != []
    ensures (IsHexGroup(ts[0]) || IsV4(ts[0])) && ArePieces(ts[1..], true) && (ts[1..] != [] ==> IsHexGroup(ts[0]))
    ensures PiecesOctets(ts) == PieceOctets(ts[0]) + PiecesOctets(ts[1..])
    ensures ArePieces(ts, false) ==> ArePieces(ts[1..], false) && IsHexGroup(ts[0])
    ensures |PieceOctets(ts[0])| >= 2 && (IsHexGroup(ts[0]) ==> |PieceOctets(ts[0])| == 2)
    ensures Colons(ts) == if ts[1..] == [] then ts[0] else ts[0] + ":" + Colons(ts[1..])
    ensures ts[0] != ""
  {
    NothingIsNoAddress();
  }

  lemma NothingIsNoAddress()
    ensures !IsV4("")
  {
  }

  lemma OnePiece(t: string)
    requires IsHexGroup(t) || IsV4(t)
    ensures ArePieces([t], true) && PiecesOctets([t]) == PieceOctets(t) && Colons([t]) == t && PiecesOctets([]) == []
    ensures IsHexGroup(t) ==> ArePieces([t], false)
  {
    assert [t][1..] == [];
    assert PieceOctets(t) + [] == PieceOctets(t);
  }

  lemma {:induction false} ReadsPieces(ts: seq<string>, out: octets, colon: Option<nat>)
    requires ArePieces(ts, true) && |out| + |PiecesOctets(ts)| <= 16 && (colon.Some? ==> colon.value <= |out|)
    ensures Power(16, 0) == 1
    ensures Parse6(Colons(ts), Colons(ts), 0, 0, out, colon) == Finish(out + PiecesOctets(ts), colon)
    decreases |ts|
  {
    hide Parse6, Power, IsHexGroup, IsV4, PieceOctets, Finish;
    if ts == [] {
      PowerGrows(0);
      Parse6Ends("", 0, 0, out, colon);
      assert out + [] == out;
    } else {
      var t, more := ts[0], ts[1..];
      PiecesCons(ts);
      if more == [] {
        assert PiecesOctets(more) == [];
        ReadsLastPiece(t, out, colon);
        assert out + PieceOctets(t) == out + PiecesOctets(ts);
      } else {
        PiecesCons(more);
        ColonsNotEmpty(more);
        ReadsPieceAndColon(t, Colons(more), Colons(ts), out, colon);
        ReadsPieces(more, out + PieceOctets(t), colon);
        assert out + PieceOctets(t) + PiecesOctets(more) == out + PiecesOctets(ts);
      }
    }
  }

  lemma ColonsNotEmpty(ts: seq<string>)
    requires ts != [] && ts[0] != ""
    ensures Colons(ts) != "" && Colons(ts)[0] == ts[0][0]
  {
  }

  /** What the parser makes of a form, from its beginning. */
  lemma AcceptsForm(f: Form)
    requires IsForm(f) && IsComplete(f)
    ensures Parse6Text(FormText(f)) == Some(FormOctets(f))
  {
    hide Parse6, Power, IsHexGroup, IsV4, PieceOctets, PiecesOctets, Colons;
    WeakerPieces(f.pre, !f.run);
    var pre, post := PiecesOctets(f.pre), PiecesOctets(f.post);
    PowerGrows(0);
    assert [] + pre == pre && [] + post == post;
    if !f.run {
      NotEmptyPieces(f.pre);
      ReadsPieces(f.pre, [], None);
      StartsWithHex(f.pre);
    } else {
      var text, tail := FormText(f), ":" + Colons(f.post);
      ReadsRun(Colons(f.post), tail, pre);
      ReadsPieces(f.post, pre, Some(|pre|));
      assert (pre + post)[..|pre|] == pre && (pre + post)[|pre|..] == post;
      if f.pre == [] {
        NoPieces();
        assert text == "::" + Colons(f.post) && text[1..] == tail;
      } else {
        assert text == Colons(f.pre) + ":" + tail;
        StartsWithHex(f.pre);
        ReadsPiecesThen(f.pre, tail, text, [], None);
      }
    }
  }

  lemma NoPieces()
    ensures Colons([]) == "" && PiecesOctets([]) == []
  {
  }

  lemma NotEmptyPieces(ts: seq<string>)
    requires ArePieces(ts, true) && |PiecesOctets(ts)| == 16
    ensures ts != []
  {
  }

  lemma StartsWithHex(ts: seq<string>)
    requires ArePieces(ts, true) && ts != []
    ensures Colons(ts) != "" && Colons(ts)[0] != ':'
  {
    PiecesCons(ts);
    ColonsNotEmpty(ts);
    if IsHexGroup(ts[0]) { assert DigitValue(ts[0][0]) < 16; } else { V4StartsWithDigit(ts[0]); }
    NotADigit();
  }

  lemma V4StartsWithDigit(t: string)
    requires IsV4(t) && t != ""
    ensures t[0] != ':'
  {
    NotADigit();
  }

  // ---------- and nothing else ----------

  /** Whatever is accepted, from a point inside a piece on, is what is left of a text. */
  lemma {:induction false} AcceptsOnlyForms(src: string, cur: string, out: octets, colon: Option<nat>) returns (f: Form)
    requires |cur| <= 4 && AllHex(cur) && HexValue(cur) < Power(16, |cur|) && |out| <= 16
    requires (colon.Some? ==> colon.value <= |out|)
    requires Parse6(src, cur + src, |cur|, HexValue(cur), out, colon).Some?
    ensures IsForm(f) && (f.run ==> colon.None?) && cur + src == RestText(f)
    ensures Parse6(src, cur + src, |cur|, HexValue(cur), out, colon) == RestResult(f, out, colon)
    decreases |src|
  {
    hide Parse6, Power, DigitValue, Finish, Parse4, IsForm, RestText, RestResult, HexValue, AllHex;
    HexFits(cur);
    if src == "" {
      Parse6Ends(cur + src, |cur|, HexValue(cur), out, colon);
      assert cur + src == cur;
      f := Form(if cur == "" then [] else [cur], false, []);
      LastPieceForm(cur, out, colon);
    } else {
      var rest := src[1..];
      Parse6Step(src, cur + src, |cur|, HexValue(cur), out, colon);
      NotADigit();
      if DigitValue(src[0]) < 16 {
        HexSnoc(cur, src[0]);
        assert cur + [src[0]] + rest == cur + src;
        HexFits(cur + [src[0]]);
        f := AcceptsOnlyForms(rest, cur + [src[0]], out, colon);
      } else if src[0] == ':' {
        assert "" + rest == rest;
        HexFits("");
        if cur == "" {
          NoHex();
          var g := AcceptsOnlyForms(rest, "", out, Some(|out|));
          f := Form([], true, g.pre);
          assert cur + src == ":" + rest;
          RunForm(g, out);
        } else {
          NoHex();
          var g := AcceptsOnlyForms(rest, "", Put(out, HexValue(cur)), colon);
          f := g.(pre := [cur] + g.pre);
          assert cur + src == cur + ":" + rest;
          MorePieces(cur, g, out, colon);
        }
      } else {
        f := Form([cur + src], false, []);
        AddressForm(cur + src, out, colon);
      }
    }
  }

  lemma NoHex()
    ensures AllHex("") && HexValue("") == 0
  {
  }

  lemma LastPieceForm(cur: string, out: octets, colon: Option<nat>)
    requires |cur| <= 4 && AllHex(cur) && |out| <= 16 && (colon.Some? ==> colon.value <= |out|)
    requires HexValue(cur) < 0x10000
    ensures var f := Form(if cur == "" then [] else [cur], false, []);
      && IsForm(f) && RestText(f) == cur
      && RestResult(f, out, colon) ==
           (if cur == "" then Finish(out, colon)
            else if |out| + 2 > 16 then None
            else Finish(Put(out, HexValue(cur)), colon))
  {
    hide Finish, Colons, PiecesOctets, AllHex, HexValue, IsV4;
    NoPieces();
    if cur == "" {
      assert out + [] + [] == out;
    } else {
      OnePiece(cur);
      assert out + PieceOctets(cur) + [] == Put(out, HexValue(cur));
    }
  }

  lemma AddressForm(t: string, out: octets, colon: Option<nat>)
    requires IsV4(t) && '.' in t && |out| + 4 <= 16 && (colon.Some? ==> colon.value <= |out|)
    ensures |Parse4(t, [], 0, false).value| == 4
    ensures var f := Form([t], false, []);
      IsForm(f) && RestText(f) == t && RestResult(f, out, colon) == Finish(out + Parse4(t, [], 0, false).value, colon)
  {
    hide Finish, Parse4;
    AcceptsOnlyPrinted4(t, [], 0, false);
    NotADigit();
    PiecesCons([t]);
    assert out + PiecesOctets([t]) + [] == out + Parse4(t, [], 0, false).value;
  }

  lemma RunForm(g: Form, out: octets)
    requires IsForm(g) && !g.run && |out| <= 16
    ensures var f := Form([], true, g.pre);
      IsForm(f) && RestText(f) == ":" + RestText(g) && RestResult(f, out, None) == RestResult(g, out, Some(|out|))
  {
    hide Finish, IsHexGroup, IsV4;
    assert out + [] + PiecesOctets(g.pre) == out + PiecesOctets(g.pre) + [];
  }

  lemma MoreText(cur: string, g: Form)
    requires cur != "" && RestText(g) != "" && (!g.run ==> g.post == [])
    ensures RestText(g.(pre := [cur] + g.pre)) == cur + ":" + RestText(g)
  {
    var pre := [cur] + g.pre;
    assert pre[1..] == g.pre;
    if g.pre == [] {
      assert cur + "::" + Colons(g.post) == cur + ":" + (":" + Colons(g.post));
    } else if g.run {
      assert cur + ":" + Colons(g.pre) + "::" + Colons(g.post) == cur + ":" + (Colons(g.pre) + "::" + Colons(g.post));
    }
  }

  lemma OneMorePiece(cur: string, ts: seq<string>, v4: bool)
    requires IsHexGroup(cur) && ArePieces(ts, v4)
    ensures ArePieces([cur] + ts, v4) && ArePieces([cur] + ts, true) && ArePieces(ts, true)
    ensures PiecesOctets([cur] + ts) == PieceOctets(cur) + PiecesOctets(ts)
  {
    hide IsHexGroup, IsV4;
    var pre := [cur] + ts;
    assert pre[1..] == ts && forall i :: 0 < i < |pre| ==> pre[i] == ts[i - 1];
    WeakerPieces(pre, v4);
  }

  lemma MorePieces(cur: string, g: Form, out: octets, colon: Option<nat>)
    requires IsHexGroup(cur) && IsForm(g) && |out| + 2 <= 16 && (colon.Some? ==> colon.value <= |out|)
    requires HexValue(cur) < 0x10000
    requires RestText(g) != ""
    ensures var f := g.(pre := [cur] + g.pre);
      && IsForm(f) && RestText(f) == cur + ":" + RestText(g)
      && RestResult(f, out, colon) == RestResult(g, Put(out, HexValue(cur)), colon)
  {
    hide Finish, IsV4, RestText, PiecesOctets, ArePieces, AllHex, HexValue;
    MoreText(cur, g);
    OneMorePiece(cur, g.pre, !g.run);
    assert out + (PieceOctets(cur) + PiecesOctets(g.pre)) == Put(out, HexValue(cur)) + PiecesOctets(g.pre);
  }

  lemma CompleteForm(f: Form)
    requires IsForm(f) && RestResult(f, [], None).Some?
    ensures IsComplete(f) && RestResult(f, [], None) == Some(FormOctets(f))
  {
    hide PiecesOctets;
    WeakerPieces(f.pre, !f.run);
    var pre, post := PiecesOctets(f.pre), PiecesOctets(f.post);
    assert [] + pre == pre && (pre + post)[..|pre|] == pre && (pre + post)[|pre|..] == post;
    if !f.run {
      NoPieces();
      assert pre + [] == pre;
    }
  }

  lemma AcceptsOnlyTexts(src: string) returns (f: Form)
    requires Parse6Text(src).Some?
    ensures IsTextOf(src, Parse6Text(src).value, f)
  {
    hide Parse6, Power, Colons, IsForm, IsComplete, FormOctets, RestResult;
    HexFits("");
    assert "" + src == src;
    if src != "" && src[0] == ':' {
      assert "" + src[1..] == src[1..];
      f := AcceptsOnlyForms(src[1..], "", [], None);
      StartsWithColon(f);
      assert src == ":" + src[1..];
    } else {
      f := AcceptsOnlyForms(src, "", [], None);
      StartsWithoutColon(f);
    }
    CompleteForm(f);
  }

  lemma StartsWithColon(f: Form)
    requires IsForm(f) && RestText(f) != "" && RestText(f)[0] == ':'
    ensures FormText(f) == ":" + RestText(f)
  {
    WeakerPieces(f.pre, !f.run);
    if f.pre == [] {
      assert "" + "::" + Colons(f.post) == ":" + (":" + Colons(f.post));
    } else {
      StartsWithHex(f.pre);
    }
  }

  lemma StartsWithoutColon(f: Form)
    requires RestText(f) == "" || RestText(f)[0] != ':'
    ensures FormText(f) == RestText(f)
  {
  }

  /** The parser accepts a text as an address if and only if it is a text of that address. */
  lemma Parses6Exactly(src: string, a: octets)
    ensures Parse6Text(src) == Some(a) <==> exists f :: IsTextOf(src, a, f)
  {
    hide Parse6Text, IsForm, IsComplete, FormText, FormOctets;
    if Parse6Text(src) == Some(a) {
      var f := AcceptsOnlyTexts(src);
    }
    forall f | IsTextOf(src, a, f) ensures Parse6Text(src) == Some(a) { AcceptsForm(f); }
  }
}
