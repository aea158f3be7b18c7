/**
 * Printing and parsing IPv4 and IPv6 addresses (thirdparty/libuv-1.30.1/src/inet.c): the text forms
 * of section 2.2 of RFC 4291, with the run of zeros to leave out chosen as in section 4.2 of
 * RFC 5952. Texts are strings without the terminating NUL.
 */
module InetAddress {
  import opened Words

  datatype Option<T> = None | Some(value: T)

  type octets = seq<byte>

  // ---------- digits ----------

  const DIGITS: string := "0123456789abcdef"

  function Digit(d: nat): char
    requires d < 16
  {
    DIGITS[d]
  }

  /** The digit a character is, in either case. */
  function DigitValue(c: char): (d: nat)
    ensures d <= 16
  {
    if '0' <= c <= '9' then c as int - '0' as int
    else if 'a' <= c <= 'f' then c as int - 'a' as int + 10
    else if 'A' <= c <= 'F' then c as int - 'A' as int + 10
    else 16
  }

  lemma DigitBack(d: nat)
    requires d < 16
    ensures DigitValue(Digit(d)) == d && Digit(d) != ':' && Digit(d) != '.'
  {
  }

  lemma CharBack(c: char)
    requires DigitValue(c) < 10
    ensures Digit(DigitValue(c)) == c
  {
  }

  /** `n` written in `base`, without leading zeros. */
  function Numeral(n: nat, base: nat): (s: string)
    requires 2 <= base <= 16
    ensures s != ""
    decreases n
  {
    if n < base then [Digit(n)] else Numeral(n / base, base) + [Digit(n % base)]
  }

  lemma {:induction false} NumeralLength(n: nat, base: nat, k: nat)
    requires 2 <= base <= 16 && n < Power(base, k) && k > 0
    ensures |Numeral(n, base)| <= k
    decreases k
  {
    if n >= base {
      assert k > 1;
      DivLess(n, base, Power(base, k - 1));
      NumeralLength(n / base, base, k - 1);
    }
  }

  lemma DivLess(n: nat, b: nat, p: nat)
    requires b > 0 && n < b * p
    ensures n / b < p
  {
  }

  function Power(b: nat, k: nat): nat { if k == 0 then 1 else b * Power(b, k - 1) }

  lemma Powers()
    ensures Power(10, 3) == 1000 && Power(16, 4) == 0x10000
  {
    assert Power(10, 2) == 100 && Power(16, 2) == 256 && Power(16, 3) == 4096;
  }

  // ---------- IPv4 ----------

  function Dec(n: nat): string { Numeral(n, 10) }

  function Text4(a: octets): string
    requires |a| == 4
  {
    Dec(a[0]) + "." + Dec(a[1]) + "." + Dec(a[2]) + "." + Dec(a[3])
  }

  /** The rest of an IPv4 text, after the octets in `done` and, if `saw`, digits worth `cur`. */
  function Parse4(src: string, done: octets, cur: byte, saw: bool): (r: Option<octets>)
    requires |done| <= 3
    decreases |src|
  {
    if src == "" then (if |done| == 3 && saw then Some(done + [cur]) else None)
    else if DigitValue(src[0]) < 10 then
      var next := cur as int * 10 + DigitValue(src[0]);
      if (saw && cur == 0) || next > 255 then None
      else Parse4(src[1..], done, next, true)
    else if src[0] == '.' && saw && |done| < 3 then Parse4(src[1..], done + [cur], 0, false)
    else None
  }

  /** What has been read, written out again. */
  function Written4(done: octets, cur: byte, saw: bool): string
    decreases |done|
  {
    (if done == [] then "" else Written4(done[..|done| - 1], done[|done| - 1], true) + ".")
    + if saw then Dec(cur) else ""
  }

  /** Whatever is accepted is what printing the result gives. */
  lemma {:induction false} AcceptsOnlyPrinted4(src: string, done: octets, cur: byte, saw: bool)
    requires |done| <= 3 && (!saw ==> cur == 0)
    ensures var r := Parse4(src, done, cur, saw);
      r.Some? ==> |r.value| == 4 && Text4(r.value) == Written4(done, cur, saw) + src
    decreases |src|
  {
    hide Text4, Written4, DigitValue, Digit;
    if src == "" {
      assert Written4(done, cur, saw) + "" == Written4(done, cur, saw);
      if |done| == 3 && saw { ThreeAndOne(done, cur); }
    } else if DigitValue(src[0]) < 10 {
      var d := DigitValue(src[0]);
      var next := cur as int * 10 + d;
      CharBack(src[0]);
      if !(saw && cur == 0) && next <= 255 {
        AcceptsOnlyPrinted4(src[1..], done, next, true);
        DigitWritten(done, cur, saw, d);
        assert Written4(done, cur, saw) + [src[0]] + src[1..] == Written4(done, cur, saw) + src;
      }
    } else if src[0] == '.' && saw && |done| < 3 {
      AcceptsOnlyPrinted4(src[1..], done + [cur], 0, false);
      DotWritten(done, cur);
      assert Written4(done, cur, true) + "." + src[1..] == Written4(done, cur, saw) + src;
    }
  }

  lemma DigitWritten(done: octets, cur: byte, saw: bool, d: nat)
    requires d < 10 && cur as int * 10 + d < 256 && (!saw ==> cur == 0) && !(saw && cur == 0)
    ensures Written4(done, cur as int * 10 + d, true) == Written4(done, cur, saw) + [Digit(d)]
  {
    var next := cur as int * 10 + d;
    if saw {
      assert next / 10 == cur && next % 10 == d && next >= 10;
      assert Dec(next) == Dec(cur) + [Digit(d)];
    } else {
      assert Dec(next) == [Digit(d)];
    }
  }

  lemma DotWritten(done: octets, cur: byte)
    ensures Written4(done + [cur], 0, false) == Written4(done, cur, true) + "."
  {
    assert (done + [cur])[..|done|] == done;
  }

  lemma ThreeAndOne(done: octets, cur: byte)
    requires |done| == 3
    ensures Text4(done + [cur]) == Written4(done, cur, true)
  {
    var d0, d1 := done[..1], done[..2];
    assert done[..2][..1] == d0 && d0[..0] == [];
    assert Written4([], done[0], true) == Dec(done[0]);
    assert Written4(d0, done[1], true) == Dec(done[0]) + "." + Dec(done[1]);
    assert Written4(d1, done[2], true) == Dec(done[0]) + "." + Dec(done[1]) + "." + Dec(done[2]);
  }

  /** The digits of an octet are read as that octet. */
  lemma {:induction false} ReadsOctet(n: byte, rest: string, done: octets)
    requires |done| <= 3
    ensures Parse4(Dec(n) + rest, done, 0, false) == Parse4(rest, done, n, true)
    decreases n
  {
    hide Parse4;
    if n < 10 {
      ReadsDigit4(n, rest, done, 0, false);
    } else {
      var last := [Digit(n % 10)] + rest;
      assert Dec(n) + rest == Dec(n / 10) + last;
      ReadsOctet(n / 10, last, done);
      ReadsDigit4(n % 10, rest, done, n / 10, true);
    }
  }

  lemma ReadsDigit4(d: nat, rest: string, done: octets, cur: byte, saw: bool)
    requires |done| <= 3 && d < 10 && cur as int * 10 + d <= 255 && (saw ==> cur > 0)
    ensures Parse4([Digit(d)] + rest, done, cur, saw) == Parse4(rest, done, cur as int * 10 + d, true)
  {
    DigitBack(d);
    assert ([Digit(d)] + rest)[1..] == rest;
  }

  lemma ReadsOctetAndDot(n: byte, rest: string, done: octets)
    requires |done| < 3
    ensures Parse4(Dec(n) + "." + rest, done, 0, false) == Parse4(rest, done + [n], 0, false)
  {
    var dot := "." + rest;
    assert Dec(n) + "." + rest == Dec(n) + dot && dot[1..] == rest;
    ReadsOctet(n, dot, done);
  }

  lemma RoundTrip4(a: octets)
    requires |a| == 4
    ensures Parse4(Text4(a), [], 0, false) == Some(a)
  {
    hide Parse4, Numeral;
    assert [] + [a[0]] == [a[0]] && [a[0]] + [a[1]] == [a[0], a[1]];
    assert [a[0], a[1]] + [a[2]] == [a[0], a[1], a[2]] == a[..3] && a[..3] + [a[3]] == a;
    var t3 := Dec(a[3]);
    var t2 := Dec(a[2]) + "." + t3;
    var t1 := Dec(a[1]) + "." + t2;
    assert Text4(a) == Dec(a[0]) + "." + t1;
    ReadsOctetAndDot(a[0], t1, []);
    ReadsOctetAndDot(a[1], t2, [a[0]]);
    ReadsOctetAndDot(a[2], t3, [a[0], a[1]]);
    assert t3 + "" == t3;
    ReadsOctet(a[3], "", [a[0], a[1], a[2]]);
    EndsWith(a[..3], a[3]);
  }

  lemma EndsWith(done: octets, cur: byte)
    requires |done| == 3
    ensures Parse4("", done, cur, true) == Some(done + [cur])
  {
  }

  /** A text is accepted exactly if it is what printing the result gives. */
  lemma ParsesExactly4(src: string, a: octets)
    requires |a| == 4
    ensures Parse4(src, [], 0, false) == Some(a) <==> src == Text4(a)
  {
    hide Parse4, Text4;
    AcceptsOnlyPrinted4(src, [], 0, false);
    assert Written4([], 0, false) + src == src;
    RoundTrip4(a);
  }

  lemma OnlyPrinted4(src: string)
    ensures var r := Parse4(src, [], 0, false); r.Some? ==> |r.value| == 4 && src == Text4(r.value)
  {
    AcceptsOnlyPrinted4(src, [], 0, false);
    assert Written4([], 0, false) + src == src;
  }

  /** The same with the octets kept in place. */
  method Pton4(src: string) returns (r: Option<octets>)
    ensures r == Parse4(src, [], 0, false)
    ensures r.Some? ==> |r.value| == 4 && src == Text4(r.value)
  {
    hide DigitValue, Text4, Numeral;
    OnlyPrinted4(src);
    var tmp := new byte[4](_ => 0);
    var saw, count, tp, i := false, 0, 0, 0;
    assert src[0..] == src && tmp[..0] == [];
    while i < |src|
      invariant i <= |src| && tp <= 3 && count == tp + (if saw then 1 else 0)
      invariant !saw ==> tmp[tp] == 0
      invariant Parse4(src, [], 0, false) == Parse4(src[i..], tmp[..tp], tmp[tp], saw)
    {
      var ch := src[i];
      assert src[i..][0] == ch && src[i..][1..] == src[i + 1..];
      if DigitValue(ch) < 10 {
        var nw := tmp[tp] as int * 10 + DigitValue(ch);
        if saw && tmp[tp] == 0 { return None; }
        if nw > 255 { return None; }
        ghost var before := tmp[..tp];
        tmp[tp] := nw;
        assert tmp[..tp] == before;
        if !saw {
          count := count + 1;
          saw := true;
        }
      } else if ch == '.' && saw {
        if count == 4 { return None; }
        ghost var before := tmp[..tp] + [tmp[tp]];
        tp := tp + 1;
        tmp[tp] := 0;
        assert tmp[..tp] == before;
        saw := false;
      } else {
        return None;
      }
      i := i + 1;
    }
    assert src[i..] == "";
    if count < 4 { return None; }
    assert tmp[..] == tmp[..3] + [tmp[3]];
    return Some(tmp[..]);
  }

  // ---------- IPv6: what is printed ----------

  type group = x: int | 0 <= x < 0x10000

  function Hex(w: group): string { Numeral(w, 16) }

  /** The groups, a colon between any two. */
  function Joined(ws: seq<group>): string {
    if ws == [] then ""
    else if |ws| == 1 then Hex(ws[0])
    else Joined(ws[..|ws| - 1]) + ":" + Hex(ws[|ws| - 1])
  }

  /** Two octets to a group, the high one first. */
  function Groups(a: octets): (ws: seq<group>)
    requires |a| % 2 == 0
    ensures |ws| == |a| / 2 && forall i :: 0 <= i < |ws| ==> ws[i] == a[2 * i] as int * 256 + a[2 * i + 1]
  {
    if a == [] then [] else Groups(a[..|a| - 2]) + [a[|a| - 2] as int * 256 + a[|a| - 1]]
  }

  function Octets(ws: seq<group>): (a: octets)
    ensures |a| == 2 * |ws|
    ensures forall i :: 0 <= i < |ws| ==> a[2 * i] == ws[i] / 256 && a[2 * i + 1] == ws[i] % 256
  {
    if ws == [] then [] else Octets(ws[..|ws| - 1]) + [ws[|ws| - 1] / 256, ws[|ws| - 1] % 256]
  }

  ghost predicate ZeroRun(ws: seq<group>, base: int, len: int) {
    0 <= base && 1 <= len && base + len <= |ws| && forall i :: base <= i < base + len ==> ws[i] == 0
  }

  /** The run to leave out: the leftmost of the longest, if at least two groups long; otherwise none, base -1. */
  ghost predicate IsBest(ws: seq<group>, base: int, len: int) {
    if base == -1 then forall b :: !ZeroRun(ws, b, 2)
    else ZeroRun(ws, base, len) && len >= 2 && forall b, l :: ZeroRun(ws, b, l) ==> l < len || (l == len && base <= b)
  }

  predicate HasV4Tail(ws: seq<group>, base: int, len: int)
    requires |ws| == 8
  {
    base == 0 && (len == 6 || (len == 5 && ws[5] == 0xffff))
  }

  /** The text of an address with the groups from `base` on left out, or none if that is -1. */
  function Text6(a: octets, base: int, len: int): string
    requires |a| == 16 && (base == -1 || (0 <= base && 0 <= len && base + len <= 8))
  {
    var ws := Groups(a);
    if base == -1 then Joined(ws)
    else if HasV4Tail(ws, base, len) then "::" + (if len == 5 then "ffff:" else "") + Text4(a[12..])
    else Joined(ws[..base]) + "::" + Joined(ws[base + len..])
  }

  /** The groups and the run they would be shortened by determine each other. */
  lemma BestIsUnique(ws: seq<group>, base1: int, len1: int, base2: int, len2: int)
    requires IsBest(ws, base1, len1) && IsBest(ws, base2, len2)
    ensures base1 == base2 && (base1 != -1 ==> len1 == len2)
  {
    if base1 != -1 { assert ZeroRun(ws, base1, 2); }
    if base2 != -1 { assert ZeroRun(ws, base2, 2); }
  }

  // ---------- IPv6: how it is read ----------

  /** What is left to do once the text has ended. */
  function Finish(out: octets, colon: Option<nat>): (r: Option<octets>)
    requires |out| <= 16 && (colon.Some? ==> colon.value <= |out|)
    ensures r.Some? ==> |r.value| == 16
  {
    if colon.None? then (if |out| == 16 then Some(out) else None)
    else if |out| == 16 then None
    else Some(out[..colon.value] + Zeros(16 - |out|) + out[colon.value..])
  }

  function Put(out: octets, val: group): octets { out + [val / 256, val % 256] }

  /**
   * The rest of an IPv6 text: `tok` is the text from the last colon on, `seen` digits of it worth
   * `val` have been read, `out` is what has been stored and `colon` where a run was left out.
   */
  function Parse6(src: string, tok: string, seen: nat, val: nat, out: octets, colon: Option<nat>): (r: Option<octets>)
    requires seen <= 4 && val < Power(16, seen) && |out| <= 16 && (colon.Some? ==> colon.value <= |out|)
    ensures r.Some? ==> |r.value| == 16
    decreases |src|
  {
    Powers();
    PowerGrows(seen);
    if src == "" then
      if seen == 0 then Finish(out, colon)
      else if |out| + 2 > 16 then None
      else Finish(Put(out, val), colon)
    else if DigitValue(src[0]) < 16 then
      if seen == 4 then None else Parse6(src[1..], tok, seen + 1, val * 16 + DigitValue(src[0]), out, colon)
    else if src[0] == ':' then
      if seen == 0 then
        if colon.Some? then None else Parse6(src[1..], src[1..], 0, 0, out, Some(|out|))
      else if |src| == 1 || |out| + 2 > 16 then None
      else Parse6(src[1..], src[1..], 0, 0, Put(out, val), colon)
    else if src[0] == '.' && |out| + 4 <= 16 && Parse4(tok, [], 0, false).Some? then
      AcceptsOnlyPrinted4(tok, [], 0, false);
      Finish(out + Parse4(tok, [], 0, false).value, colon)
    else None
  }

  lemma PowerGrows(k: nat)
    ensures Power(16, k + 1) == 16 * Power(16, k) && (k <= 4 ==> Power(16, k) <= 0x10000) && Power(16, 0) == 1
  {
    Powers();
    assert Power(16, 1) == 16 && Power(16, 2) == 256;
  }

  /** A text: a leading colon has to be one of two, and is passed over. */
  function Parse6Text(src: string): Option<octets> {
    PowerGrows(0);
    if src != "" && src[0] == ':' then
      if |src| == 1 || src[1] != ':' then None else Parse6(src[1..], src[1..], 0, 0, [], None)
    else Parse6(src, src, 0, 0, [], None)
  }

  // ---------- what is read back ----------

  lemma HexLength(w: group)
    ensures 1 <= |Hex(w)| <= 4 && w < Power(16, |Hex(w)|)
  {
    Powers();
    NumeralLength(w, 16, 4);
    NumeralBelow(w, 16);
  }

  lemma {:induction false} NumeralBelow(n: nat, base: nat)
    requires 2 <= base <= 16
    ensures n < Power(base, |Numeral(n, base)|)
    decreases n
  {
    if n < base {
      assert Power(base, 1) == base;
    } else {
      NumeralBelow(n / base, base);
      MulDiv(n, base, Power(base, |Numeral(n / base, base)|));
    }
  }

  lemma MulDiv(n: nat, b: nat, p: nat)
    requires b > 0 && n / b < p
    ensures n < b * p
  {
    assert n / b + 1 <= p;
    assert b * (n / b + 1) <= b * p;
  }

  /** The digits of a group are read as that group. */
  lemma {:induction false} ReadsGroup(w: group, rest: string, tok: string, out: octets, colon: Option<nat>)
    requires |out| <= 16 && (colon.Some? ==> colon.value <= |out|)
    ensures |Hex(w)| <= 4 && w < Power(16, |Hex(w)|) && Power(16, 0) == 1
    ensures Parse6(Hex(w) + rest, tok, 0, 0, out, colon) == Parse6(rest, tok, |Hex(w)|, w, out, colon)
    decreases w
  {
    hide Parse6, Power, Digit;
    HexLength(w);
    PowerGrows(0);
    if w < 16 {
      ReadsDigit(w, rest, tok, 0, 0, out, colon);
    } else {
      var last := [Digit(w % 16)] + rest;
      assert Hex(w) + rest == Hex(w / 16) + last;
      ReadsGroup(w / 16, last, tok, out, colon);
      ReadsDigit(w % 16, rest, tok, |Hex(w / 16)|, w / 16, out, colon);
    }
  }

  lemma ReadsDigit(d: nat, rest: string, tok: string, seen: nat, val: nat, out: octets, colon: Option<nat>)
    requires d < 16 && seen < 4 && val < Power(16, seen) && |out| <= 16 && (colon.Some? ==> colon.value <= |out|)
    ensures val * 16 + d < Power(16, seen + 1)
    ensures Parse6([Digit(d)] + rest, tok, seen, val, out, colon)
      == Parse6(rest, tok, seen + 1, val * 16 + d, out, colon)
  {
    hide Power, Digit, DigitValue;
    DigitBack(d);
    PowerGrows(seen);
    assert ([Digit(d)] + rest)[1..] == rest;
  }

  lemma ReadsGroupAndColon(w: group, rest: string, tok: string, out: octets, colon: Option<nat>)
    requires rest != "" && |out| + 2 <= 16 && (colon.Some? ==> colon.value <= |out|)
    ensures Power(16, 0) == 1
    ensures Parse6(Hex(w) + ":" + rest, tok, 0, 0, out, colon) == Parse6(rest, rest, 0, 0, Put(out, w), colon)
  {
    hide Power, Numeral;
    var tail := ":" + rest;
    assert Hex(w) + ":" + rest == Hex(w) + tail && tail[1..] == rest;
    HexLength(w);
    ReadsGroup(w, tail, tok, out, colon);
  }

  lemma {:induction false} ReadsJoinedThen(ws: seq<group>, rest: string, tok: string, out: octets, colon: Option<nat>)
    requires ws != [] && rest != "" && |out| + 2 * |ws| <= 16 && (colon.Some? ==> colon.value <= |out|)
    ensures Power(16, 0) == 1
    ensures Parse6(Joined(ws) + ":" + rest, tok, 0, 0, out, colon) == Parse6(rest, rest, 0, 0, out + Octets(ws), colon)
    decreases |ws|
  {
    hide Parse6, Hex, Power;
    var n := |ws| - 1;
    assert Octets(ws) == Put(Octets(ws[..n]), ws[n]);
    assert out + Octets(ws) == Put(out + Octets(ws[..n]), ws[n]);
    if n == 0 {
      assert ws[..n] == [] && out + Octets([]) == out;
      ReadsGroupAndColon(ws[0], rest, tok, out, colon);
    } else {
      var tail := Hex(ws[n]) + ":" + rest;
      assert Joined(ws) + ":" + rest == Joined(ws[..n]) + ":" + tail;
      ReadsJoinedThen(ws[..n], tail, tok, out, colon);
      ReadsGroupAndColon(ws[n], rest, tail, out + Octets(ws[..n]), colon);
    }
  }

  lemma ReadsLastGroup(w: group, tok: string, out: octets, colon: Option<nat>)
    requires |out| + 2 <= 16 && (colon.Some? ==> colon.value <= |out|)
    ensures Power(16, 0) == 1 && Parse6(Hex(w), tok, 0, 0, out, colon) == Finish(Put(out, w), colon)
  {
    hide Power, Numeral, Finish;
    assert Hex(w) + "" == Hex(w);
    HexLength(w);
    ReadsGroup(w, "", tok, out, colon);
  }

  lemma ReadsJoined(ws: seq<group>, tok: string, out: octets, colon: Option<nat>)
    requires |out| + 2 * |ws| <= 16 && (colon.Some? ==> colon.value <= |out|)
    ensures Power(16, 0) == 1 && Parse6(Joined(ws), tok, 0, 0, out, colon) == Finish(out + Octets(ws), colon)
  {
    hide Hex, Finish, Power;
    var n := |ws| - 1;
    if ws == [] {
      PowerGrows(0);
      assert out + Octets(ws) == out;
    } else {
      assert out + Octets(ws) == Put(out + Octets(ws[..n]), ws[n]);
      if n == 0 {
        assert out + Octets(ws[..n]) == out;
        ReadsLastGroup(ws[0], tok, out, colon);
      } else {
        HexLength(ws[n]);
        ReadsJoinedThen(ws[..n], Hex(ws[n]), tok, out, colon);
        ReadsLastGroup(ws[n], Hex(ws[n]), out + Octets(ws[..n]), colon);
      }
    }
  }

  /** Digits and then a dot: the whole of the token is an IPv4 text. */
  lemma {:induction false} ReadsUpToDot(digits: string, rest: string, tok: string,
                                        seen: nat, val: nat, out: octets, colon: Option<nat>)
    requires seen + |digits| <= 4 && val < Power(16, seen) && |out| + 4 <= 16 && (colon.Some? ==> colon.value <= |out|)
    requires forall i :: 0 <= i < |digits| ==> DigitValue(digits[i]) < 10
    requires Parse4(tok, [], 0, false).Some? && |Parse4(tok, [], 0, false).value| == 4
    ensures Parse6(digits + "." + rest, tok, seen, val, out, colon)
      == Finish(out + Parse4(tok, [], 0, false).value, colon)
    decreases |digits|
  {
    hide Parse4, Finish, Power;
    var src := digits + "." + rest;
    if digits != "" {
      PowerGrows(seen);
      assert src[1..] == digits[1..] + "." + rest;
      ReadsUpToDot(digits[1..], rest, tok, seen + 1, val * 16 + DigitValue(digits[0]), out, colon);
    }
  }

  lemma {:induction false} DecimalDigits(n: nat)
    ensures forall i :: 0 <= i < |Dec(n)| ==> DigitValue(Dec(n)[i]) < 10
    decreases n
  {
    DigitBack(n % 10);
    if n >= 10 {
      DecimalDigits(n / 10);
      assert Dec(n) == Dec(n / 10) + [Digit(n % 10)];
      assert forall i :: 0 <= i < |Dec(n)| - 1 ==> Dec(n)[i] == Dec(n / 10)[i];
    }
  }

  lemma ReadsV4(a: octets, out: octets, colon: Option<nat>)
    requires |a| == 4 && |out| + 4 <= 16 && (colon.Some? ==> colon.value <= |out|)
    ensures Power(16, 0) == 1 && Parse6(Text4(a), Text4(a), 0, 0, out, colon) == Finish(out + a, colon)
  {
    hide Parse6, Parse4, Finish, Numeral;
    var rest := Dec(a[1]) + "." + Dec(a[2]) + "." + Dec(a[3]);
    assert Text4(a) == Dec(a[0]) + "." + rest;
    RoundTrip4(a);
    DecimalDigits(a[0]);
    Powers();
    NumeralLength(a[0], 10, 3);
    ReadsUpToDot(Dec(a[0]), rest, Text4(a), 0, 0, out, colon);
  }

  /** A colon where a group would start: a run has been left out here. */
  lemma ReadsRun(rest: string, tok: string, out: octets)
    requires |out| <= 16
    ensures Power(16, 0) == 1 && Parse6(":" + rest, tok, 0, 0, out, None) == Parse6(rest, rest, 0, 0, out, Some(|out|))
  {
    assert (":" + rest)[1..] == rest;
  }

  lemma GroupsThere(a: octets)
    requires |a| == 16
    ensures Octets(Groups(a)) == a
  {
    hide Octets, Groups;
    var ws := Groups(a);
    forall i | 0 <= i < 16 ensures Octets(ws)[i] == a[i] {
      assert ws[i / 2] == a[2 * (i / 2)] as int * 256 + a[2 * (i / 2) + 1];
      assert i == 2 * (i / 2) || i == 2 * (i / 2) + 1;
    }
  }

  /** The octets of some of the groups are a stretch of the address. */
  lemma OctetsOf(a: octets, from: nat, to: nat)
    requires |a| == 16 && from <= to <= 8
    ensures Octets(Groups(a)[from..to]) == a[2 * from..2 * to]
  {
    hide Octets, Groups;
    var ws := Groups(a)[from..to];
    forall i | 0 <= i < |Octets(ws)| ensures Octets(ws)[i] == a[2 * from + i] {
      var g := i / 2;
      assert ws[g] == a[2 * (from + g)] as int * 256 + a[2 * (from + g) + 1] && (i == 2 * g || i == 2 * g + 1);
    }
  }

  lemma RunIsZeros(a: octets, base: nat, len: nat)
    requires |a| == 16 && base + len <= 8 && ZeroRun(Groups(a), base, len)
    ensures a[2 * base..2 * (base + len)] == Zeros(2 * len)
  {
    hide Groups;
    forall i | 2 * base <= i < 2 * (base + len) ensures a[i] == 0 {
      assert Groups(a)[i / 2] == a[2 * (i / 2)] as int * 256 + a[2 * (i / 2) + 1];
    }
  }

  /** Zeros put back where they were left out. */
  lemma RunPutBack(a: octets, base: nat, len: nat)
    requires |a| == 16 && base + len <= 8 && ZeroRun(Groups(a), base, len)
    ensures var ws := Groups(a); Finish(Octets(ws[..base]) + Octets(ws[base + len..]), Some(2 * base)) == Some(a)
  {
    hide Octets, Groups, ZeroRun, Zeros;
    var ws := Groups(a);
    OctetsOf(a, 0, base);
    OctetsOf(a, base + len, 8);
    RunIsZeros(a, base, len);
    RunInRange(ws, base, len);
    assert ws[..base] == ws[0..base] && ws[base + len..] == ws[base + len..8];
    var pre, post := a[..2 * base], a[2 * (base + len)..];
    assert pre == a[2 * 0..2 * base] && post == a[2 * (base + len)..2 * 8] && |pre + post| == 16 - 2 * len;
    assert (pre + post)[..2 * base] == pre && (pre + post)[2 * base..] == post;
    var out := Octets(ws[..base]) + Octets(ws[base + len..]);
    assert out == pre + post;
    assert Finish(out, Some(2 * base)) == Some(pre + Zeros(2 * len) + post);
    InThree(a, 2 * base, 2 * (base + len));
  }

  lemma InThree(a: octets, i: nat, j: nat)
    requires i <= j <= |a|
    ensures a[..i] + a[i..j] + a[j..] == a
  {
  }

  lemma {:induction false} StartsWithDigit(ws: seq<group>)
    requires ws != []
    ensures Joined(ws) != "" && Joined(ws)[0] != ':'
    decreases |ws|
  {
    if |ws| == 1 { NumeralStarts(ws[0]); } else { StartsWithDigit(ws[..|ws| - 1]); }
  }

  lemma {:induction false} NumeralStarts(n: nat)
    ensures Numeral(n, 16)[0] != ':'
    decreases n
  {
    if n < 16 { DigitBack(n); } else { NumeralStarts(n / 16); }
  }

  lemma RoundTripPlain(a: octets)
    requires |a| == 16
    ensures Parse6Text(Joined(Groups(a))) == Some(a)
  {
    hide Parse6, Joined, Groups, Octets;
    var ws := Groups(a);
    StartsWithDigit(ws);
    ReadsJoined(ws, Joined(ws), [], None);
    GroupsThere(a);
    assert [] + Octets(ws) == Octets(ws);
  }

  lemma RoundTripRun(a: octets, base: nat, len: nat)
    requires |a| == 16 && base + len <= 8 && ZeroRun(Groups(a), base, len)
    ensures Parse6Text(Joined(Groups(a)[..base]) + "::" + Joined(Groups(a)[base + len..])) == Some(a)
  {
    hide Parse6, Groups, Octets, Finish, ZeroRun;
    var ws := Groups(a);
    var pre, post := ws[..base], ws[base + len..];
    var text, tail := Joined(pre) + "::" + Joined(post), ":" + Joined(post);
    RunPutBack(a, base, len);
    ReadsRun(Joined(post), tail, Octets(pre));
    ReadsJoined(post, Joined(post), Octets(pre), Some(2 * base));
    if base == 0 {
      assert text == "::" + Joined(post) && text[1..] == tail;
      assert pre == [] && Octets(pre) == [];
    } else {
      assert text == Joined(pre) + ":" + tail;
      StartsWithDigit(pre);
      assert text[0] == Joined(pre)[0];
      ReadsJoinedThen(pre, tail, text, [], None);
      assert [] + Octets(pre) == Octets(pre);
    }
  }

  lemma RoundTripV4(a: octets, len: nat)
    requires |a| == 16 && ZeroRun(Groups(a), 0, len) && HasV4Tail(Groups(a), 0, len)
    ensures Parse6Text(Text6(a, 0, len)) == Some(a)
  {
    hide Parse6, Text4, Groups, Power;
    var ws := Groups(a);
    var v4 := Text4(a[12..]);
    var after := if len == 5 then "ffff:" + v4 else v4;
    var text := "::" + after;
    assert text == Text6(a, 0, len) && text[1..] == ":" + after;
    ReadsRun(after, text[1..], []);
    if len == 5 {
      FourFs();
      assert Hex(0xffff) + ":" + v4 == after;
      TextNotEmpty(a[12..]);
      ReadsGroupAndColon(0xffff, v4, after, [], Some(0));
      ReadsV4(a[12..], [255, 255], Some(0));
      assert Put([], 0xffff) == [255, 255];
      assert [255, 255] + a[12..] == (if len == 5 then [255, 255] else []) + a[12..];
      assert a[10] == 255 && a[11] == 255 by { assert ws[5] == a[10] as int * 256 + a[11]; }
    } else {
      ReadsV4(a[12..], [], Some(0));
      assert [] + a[12..] == a[12..];
    }
    V4PutBack(a, len);
  }

  lemma FourFs()
    ensures Hex(0xffff) == "ffff"
  {
    assert Numeral(0xf, 16) == "f" && Numeral(0xff, 16) == "ff" && Numeral(0xfff, 16) == "fff";
  }

  lemma TextNotEmpty(a: octets)
    requires |a| == 4
    ensures Text4(a) != ""
  {
  }

  lemma V4PutBack(a: octets, len: nat)
    requires |a| == 16 && ZeroRun(Groups(a), 0, len) && (len == 6 || (len == 5 && a[10] == 255 && a[11] == 255))
    ensures Finish((if len == 5 then [255, 255] else []) + a[12..], Some(0)) == Some(a)
  {
    hide Groups, ZeroRun, Zeros;
    RunIsZeros(a, 0, len);
    var out := (if len == 5 then [255, 255] else []) + a[12..];
    assert out[..0] == [] && out[0..] == out && |out| == 16 - 2 * len;
    assert out == a[2 * len..];
    assert [] + a[0..2 * len] + a[2 * len..] == a;
  }

  /** Parsing what was printed gives the same sixteen octets, whichever run of zeros was left out. */
  lemma RoundTrip6(a: octets, base: int, len: int)
    requires |a| == 16 && (base == -1 || ZeroRun(Groups(a), base, len))
    ensures Parse6Text(Text6(a, base, len)) == Some(a)
  {
    hide Parse6Text, Groups, ZeroRun;
    if base == -1 {
      RoundTripPlain(a);
    } else {
      RunInRange(Groups(a), base, len);
      if HasV4Tail(Groups(a), base, len) { RoundTripV4(a, len); } else { RoundTripRun(a, base, len); }
    }
  }

  lemma RunInRange(ws: seq<group>, base: int, len: int)
    requires ZeroRun(ws, base, len)
    ensures 0 <= base && 1 <= len && base + len <= |ws|
  {
  }

  // ---------- the loops ----------

  /** The best run so far, of any length; base -1 if there is no zero at all. */
  ghost predicate BestIn(ws: seq<group>, base: int, len: int) {
    if base == -1 then forall b :: !ZeroRun(ws, b, 1)
    else ZeroRun(ws, base, len) && forall b, l :: ZeroRun(ws, b, l) ==> l < len || (l == len && base <= b)
  }

  lemma RunStops(ws: seq<group>, b: int, l: int, k: nat)
    requires ZeroRun(ws, b, l) && k < |ws| && ws[k] != 0
    ensures k < b || b + l <= k
  {
  }

  lemma NonzeroAdded(ws: seq<group>, i: nat, base: int, len: int)
    requires i < |ws| && ws[i] != 0 && BestIn(ws[..i], base, len)
    ensures BestIn(ws[..i + 1], base, len)
  {
    var before, now := ws[..i], ws[..i + 1];
    assert now == before + [ws[i]];
    forall b, l | ZeroRun(now, b, l) ensures ZeroRun(before, b, l) {
      RunStops(now, b, l, i);
    }
  }

  /** A run has come to its end at `i`: it is the best now if it is longer than the best before it. */
  lemma RunEnded(ws: seq<group>, c: nat, i: nat, base: int, len: int)
    requires c < i <= |ws| && BestIn(ws[..c], base, len) && ZeroRun(ws, c, i - c) && (c == 0 || ws[c - 1] != 0)
    ensures if base == -1 || i - c > len then BestIn(ws[..i], c, i - c) else BestIn(ws[..i], base, len)
  {
    var before, now := ws[..c], ws[..i];
    assert forall k :: 0 <= k < c ==> now[k] == before[k];
    forall b, l | ZeroRun(now, b, l) ensures b >= c || ZeroRun(before, b, l) {
      if c > 0 { RunStops(now, b, l, c - 1); }
    }
    forall b, l | ZeroRun(before, b, l) ensures base != -1 {
      assert ZeroRun(before, b, 1);
    }
    assert ZeroRun(now, c, i - c);
  }

  lemma BestOfTwo(ws: seq<group>, base: int, len: int)
    requires BestIn(ws, base, len)
    ensures IsBest(ws, if base != -1 && len < 2 then -1 else base, len)
  {
    forall b | base == -1 && ZeroRun(ws, b, 2) ensures false {
      assert ZeroRun(ws, b, 1);
    }
  }

  /** One pass over the groups finds the leftmost longest run. */
  method FindBest(words: array<group>) returns (base: int, len: int)
    ensures IsBest(words[..], base, len)
  {
    hide BestIn, IsBest;
    ghost var ws := words[..];
    var bestBase, bestLen, curBase, curLen := -1, 0, -1, 0;
    NothingYet(ws);
    for i := 0 to words.Length
      invariant words[..] == ws
      invariant curBase == -1 ==> BestIn(ws[..i], bestBase, bestLen) && (i == 0 || ws[i - 1] != 0)
      invariant curBase != -1 ==>
        0 <= curBase && curLen >= 1 && curBase + curLen == i && (curBase == 0 || ws[curBase - 1] != 0)
      invariant curBase != -1 ==> ZeroRun(ws, curBase, curLen) && BestIn(ws[..curBase], bestBase, bestLen)
    {
      if words[i] == 0 {
        if curBase == -1 {
          curBase, curLen := i, 1;
        } else {
          curLen := curLen + 1;
        }
      } else {
        if curBase != -1 {
          RunEnded(ws, curBase, i, bestBase, bestLen);
          if bestBase == -1 || curLen > bestLen {
            bestBase, bestLen := curBase, curLen;
          }
          curBase := -1;
        }
        NonzeroAdded(ws, i, bestBase, bestLen);
      }
    }
    if curBase != -1 {
      RunEnded(ws, curBase, words.Length, bestBase, bestLen);
      if bestBase == -1 || curLen > bestLen {
        bestBase, bestLen := curBase, curLen;
      }
    }
    assert ws[..words.Length] == ws;
    BestOfTwo(ws, bestBase, bestLen);
    if bestBase != -1 && bestLen < 2 {
      bestBase := -1;
    }
    return bestBase, bestLen;
  }

  lemma NothingYet(ws: seq<group>)
    ensures BestIn(ws[..0], -1, 0)
  {
  }

  /** Group `g` made of the octets before `i`. */
  function GroupSoFar(src: octets, i: nat, g: nat): nat
    requires i <= |src| && 2 * g + 1 < |src|
  {
    (if 2 * g < i then src[2 * g] as int * 256 else 0) + (if 2 * g + 1 < i then src[2 * g + 1] as int else 0)
  }

  /** The octets gathered into groups, one after the other. */
  method GatherWords(src: octets) returns (words: array<group>)
    requires |src| == 16
    ensures fresh(words) && words[..] == Groups(src)
  {
    words := new group[8](_ => 0);
    for i := 0 to 16
      invariant forall g :: 0 <= g < 8 ==> words[g] == GroupSoFar(src, i, g)
    {
      OrOctet(words[i / 2], src[i], i % 2);
      words[i / 2] := BitOr(words[i / 2], src[i] as int * (if i % 2 == 0 then 256 else 1));
    }
  }

  lemma OrOctet(w: group, o: byte, odd: nat)
    requires odd == 0 ==> w == 0
    requires odd == 1 ==> w % 256 == 0
    requires odd <= 1
    ensures BitOr(w, o as int * (if odd == 0 then 256 else 1)) == w + o as int * (if odd == 0 then 256 else 1)
  {
    PowersOfTwo();
    if odd == 0 {
      Pow2Adds(8, 8);
      OrLow(0, 16, o as int * 256);
    } else {
      OrLow(w / 256, 8, o);
    }
  }

  /** What the printing loop has written before it comes to group `i`. */
  function TextUpTo(ws: seq<group>, base: int, len: int, i: nat): string
    requires i <= |ws| && (base == -1 || (0 <= base && 1 <= len && base + len <= |ws|))
  {
    if base == -1 || i <= base then Joined(ws[..i])
    else if i <= base + len then Joined(ws[..base]) + ":"
    else Joined(ws[..base]) + "::" + Joined(ws[base + len..i])
  }

  lemma JoinedMore(ws: seq<group>, from: nat, i: nat)
    requires from <= i < |ws|
    ensures Joined(ws[from..i + 1]) == (if from == i then "" else Joined(ws[from..i]) + ":") + Hex(ws[i])
  {
    assert ws[from..i + 1][..i - from] == ws[from..i];
  }

  lemma NextGroup(ws: seq<group>, base: int, len: int, i: nat)
    requires i < |ws| && (base == -1 || (0 <= base && 1 <= len && base + len <= |ws|))
    ensures TextUpTo(ws, base, len, i + 1) == TextUpTo(ws, base, len, i) +
      if base != -1 && base <= i < base + len then (if i == base then ":" else "")
      else (if i != 0 then ":" else "") + Hex(ws[i])
  {
    hide Hex, Joined;
    var h := Hex(ws[i]);
    if base == -1 || i < base {
      assert ws[0..i + 1] == ws[..i + 1] && ws[0..i] == ws[..i];
      JoinedMore(ws, 0, i);
      if i == 0 { JoinedNone(ws[..0]); } else { assert Joined(ws[..i]) + ":" + h == Joined(ws[..i]) + (":" + h); }
    } else if i >= base + len {
      var pre, post := Joined(ws[..base]), Joined(ws[base + len..i]);
      JoinedMore(ws, base + len, i);
      if i == base + len {
        assert pre + "::" + h == pre + ":" + (":" + h);
      } else {
        assert pre + "::" + (post + ":" + h) == pre + "::" + post + (":" + h);
      }
    }
  }

  lemma JoinedNone(ws: seq<group>)
    requires ws == []
    ensures Joined(ws) == ""
  {
  }

  /** Whether an IPv4 address is printed from group `i` on. */
  predicate IsEncapsulated(ws: seq<group>, base: int, len: int, i: nat)
    requires |ws| == 8
  {
    i == 6 && base == 0 && (len == 6 || (len == 7 && ws[7] != 0x0001) || (len == 5 && ws[5] == 0xffff))
  }

  lemma {:induction false} JoinedFits(ws: seq<group>)
    ensures |Joined(ws)| <= 5 * |ws|
    decreases |ws|
  {
    if ws != [] {
      HexLength(ws[|ws| - 1]);
      JoinedFits(ws[..|ws| - 1]);
    }
  }

  lemma TextFits(a: octets, base: int, len: int)
    requires |a| == 16 && (base == -1 || (0 <= base && 1 <= len && base + len <= 8))
    ensures |Text6(a, base, len)| < 46
  {
    hide Joined, Numeral;
    Powers();
    forall i | 0 <= i < 16 ensures |Dec(a[i])| <= 3 { NumeralLength(a[i], 10, 3); }
    JoinedFits(Groups(a));
    if base != -1 {
      JoinedFits(Groups(a)[..base]);
      JoinedFits(Groups(a)[base + len..]);
    }
  }

  // ---------- which form is printed ----------

  /** Five zero groups and ffff: an IPv4-mapped address. */
  predicate IsMapped(ws: seq<group>)
    requires |ws| == 8
  {
    (forall i :: 0 <= i < 5 ==> ws[i] == 0) && ws[5] == 0xffff
  }

  /** Six zero groups, and not seven: an IPv4-compatible address. */
  predicate IsCompatible(ws: seq<group>)
    requires |ws| == 8
  {
    (forall i :: 0 <= i < 6 ==> ws[i] == 0) && ws[6] != 0
  }

  lemma BestOfMapped(ws: seq<group>, base: int, len: int)
    requires |ws| == 8 && IsBest(ws, base, len) && IsMapped(ws)
    ensures base == 0 && len == 5
  {
    assert ZeroRun(ws, 0, 2) && ZeroRun(ws, 0, 5);
    RunStops(ws, base, len, 5);
  }

  lemma BestOfCompatible(ws: seq<group>, base: int, len: int)
    requires |ws| == 8 && IsBest(ws, base, len) && IsCompatible(ws)
    ensures base == 0 && len == 6
  {
    assert ZeroRun(ws, 0, 2) && ZeroRun(ws, 0, 6);
    RunStops(ws, base, len, 6);
  }

  lemma TailMeans(ws: seq<group>, base: int, len: int)
    requires |ws| == 8 && IsBest(ws, base, len) && base != -1 && HasV4Tail(ws, base, len)
    ensures IsMapped(ws) || IsCompatible(ws)
  {
    if len == 6 && ws[6] == 0 { assert ZeroRun(ws, 0, 7); }
  }

  lemma {:induction false} JoinedNoDot(ws: seq<group>)
    ensures '.' !in Joined(ws)
    decreases |ws|
  {
    if ws != [] {
      NumeralTidy(ws[|ws| - 1], 16);
      if |ws| > 1 { JoinedNoDot(ws[..|ws| - 1]); }
    }
  }

  lemma NoDotBetween(x: string, y: string)
    requires '.' !in x && '.' !in y
    ensures '.' !in x + "::" + y
  {
  }

  /** What is printed when there is no IPv4 address at the end. */
  lemma PlainForm(a: octets, base: int, len: int)
    requires |a| == 16 && (base == -1 || (0 <= base && 0 <= len && base + len <= 8))
    requires base != -1 ==> !HasV4Tail(Groups(a), base, len)
    ensures var ws, text := Groups(a), Text6(a, base, len);
      && '.' !in text
      && text == if base == -1 then Joined(ws) else Joined(ws[..base]) + "::" + Joined(ws[base + len..])
  {
    hide Groups, Joined, HasV4Tail;
    var ws := Groups(a);
    if base == -1 {
      JoinedNoDot(ws);
    } else {
      JoinedNoDot(ws[..base]);
      JoinedNoDot(ws[base + len..]);
      NoDotBetween(Joined(ws[..base]), Joined(ws[base + len..]));
    }
  }

  lemma TailForm(a: octets, len: int)
    requires |a| == 16 && 0 <= len <= 8 && HasV4Tail(Groups(a), 0, len)
    ensures Text6(a, 0, len) == (if len == 5 then "::ffff:" else "::") + Text4(a[12..])
  {
    hide Groups, Text4, Joined;
    assert "::" + "ffff:" == "::ffff:" && "::" + "" == "::";
  }

  /** Which addresses are printed with an IPv4 address at the end, and how. */
  lemma PrintedForm(a: octets, base: int, len: int)
    requires |a| == 16 && IsBest(Groups(a), base, len)
    ensures base == -1 || (0 <= base && 0 <= len && base + len <= 8)
    ensures var ws, text := Groups(a), Text6(a, base, len);
      if IsMapped(ws) then text == "::ffff:" + Text4(a[12..])
      else if IsCompatible(ws) then text == "::" + Text4(a[12..])
      else
        && '.' !in text
        && text == if base == -1 then Joined(ws) else Joined(ws[..base]) + "::" + Joined(ws[base + len..])
  {
    hide IsBest, Groups, Text4, Text6, ZeroRun;
    var ws := Groups(a);
    BestIsRun(ws, base, len);
    if IsMapped(ws) {
      BestOfMapped(ws, base, len);
      TailForm(a, len);
    } else if IsCompatible(ws) {
      BestOfCompatible(ws, base, len);
      TailForm(a, len);
    } else {
      if base != -1 && HasV4Tail(ws, base, len) { TailMeans(ws, base, len); }
      PlainForm(a, base, len);
    }
  }

  predicate IsSeparator(c: char) { c == ':' || c == '.' }

  predicate IsLowerDigit(c: char) { '0' <= c <= '9' || 'a' <= c <= 'f' }

  /** A lower-case digit or a separator, and no zero in front of other digits. */
  predicate TidyAt(text: string, i: nat)
    requires i < |text|
  {
    && (IsLowerDigit(text[i]) || IsSeparator(text[i]))
    && (text[i] == '0' && (i == 0 || IsSeparator(text[i - 1])) ==> i + 1 == |text| || IsSeparator(text[i + 1]))
  }

  predicate IsTidy(text: string) { forall i :: 0 <= i < |text| ==> TidyAt(text, i) }

  lemma LowerDigit(d: nat)
    requires d < 16
    ensures IsLowerDigit(Digit(d)) && (Digit(d) == '0' ==> d == 0)
  {
  }

  lemma {:induction false} NumeralDigits(n: nat, base: nat)
    requires 2 <= base <= 16
    ensures var t := Numeral(n, base);
      (forall i :: 0 <= i < |t| ==> IsLowerDigit(t[i])) && (t[0] == '0' ==> n == 0)
    decreases n
  {
    hide IsLowerDigit, Digit;
    if n < base {
      LowerDigit(n);
    } else {
      DivAtLeastOne(n, base);
      NumeralDigits(n / base, base);
      LowerDigit(n % base);
      assert Numeral(n, base)[0] == Numeral(n / base, base)[0];
    }
  }

  lemma DivAtLeastOne(n: nat, base: nat)
    requires 0 < base <= n
    ensures 0 < n / base
  {
  }

  lemma NumeralTidy(n: nat, base: nat)
    requires 2 <= base <= 16
    ensures IsTidy(Numeral(n, base)) && '.' !in Numeral(n, base)
  {
    NumeralDigits(n, base);
    if n == 0 { assert |Numeral(n, base)| == 1; }
  }

  lemma TidyGlue(a: string, sep: char, b: string)
    requires IsTidy(a) && IsTidy(b) && IsSeparator(sep)
    ensures IsTidy(a + [sep] + b)
  {
    var t, n := a + [sep] + b, |a| + 1;
    forall i | 0 <= i < |t| ensures TidyAt(t, i) {
      if i < |a| {
        assert TidyAt(a, i) && t[i] == a[i];
      } else if i >= n {
        assert TidyAt(b, i - n) && t[i] == b[i - n];
        assert i > n ==> t[i - 1] == b[i - n - 1];
      }
    }
  }

  lemma {:induction false} JoinedTidy(ws: seq<group>)
    ensures IsTidy(Joined(ws))
    decreases |ws|
  {
    hide IsTidy;
    NothingTidy();
    if ws != [] {
      var n := |ws| - 1;
      NumeralTidy(ws[n], 16);
      JoinedTidy(ws[..n]);
      TidyGlue(Joined(ws[..n]), ':', Hex(ws[n]));
    }
  }

  lemma NothingTidy()
    ensures IsTidy("")
  {
  }

  lemma Text4Tidy(a: octets)
    requires |a| == 4
    ensures IsTidy(Text4(a))
  {
    hide IsTidy, Numeral;
    forall i | 0 <= i < 4 ensures IsTidy(Dec(a[i])) { NumeralTidy(a[i], 10); }
    TidyGlue(Dec(a[0]), '.', Dec(a[1]));
    TidyGlue(Dec(a[0]) + "." + Dec(a[1]), '.', Dec(a[2]));
    TidyGlue(Dec(a[0]) + "." + Dec(a[1]) + "." + Dec(a[2]), '.', Dec(a[3]));
  }

  /** Every address is printed in lower case and without leading zeros. */
  lemma Text6Tidy(a: octets, base: int, len: int)
    requires |a| == 16 && (base == -1 || (0 <= base && 0 <= len && base + len <= 8))
    ensures IsTidy(Text6(a, base, len))
  {
    hide IsTidy, Joined, Text4, Groups;
    var ws := Groups(a);
    if base == -1 {
      JoinedTidy(ws);
    } else if HasV4Tail(ws, base, len) {
      TailForm(a, len);
      TailTidy(a[12..]);
    } else {
      JoinedTidy(ws[..base]);
      JoinedTidy(ws[base + len..]);
      RunTidy(Joined(ws[..base]), Joined(ws[base + len..]));
    }
  }

  lemma TailTidy(v4: octets)
    requires |v4| == 4
    ensures IsTidy("::ffff:" + Text4(v4)) && IsTidy("::" + Text4(v4))
  {
    hide IsTidy, Text4, Numeral;
    NothingTidy();
    Text4Tidy(v4);
    RunTidy("", Text4(v4));
    assert "" + "::" + Text4(v4) == "::" + Text4(v4);
    FourFs();
    NumeralTidy(0xffff, 16);
    TidyGlue("ffff", ':', Text4(v4));
    RunTidy("", "ffff" + [':'] + Text4(v4));
    assert "" + "::" + ("ffff" + [':'] + Text4(v4)) == "::ffff:" + Text4(v4);
  }

  lemma RunTidy(a: string, b: string)
    requires IsTidy(a) && IsTidy(b)
    ensures IsTidy(a + "::" + b)
  {
    hide IsTidy;
    NothingTidy();
    TidyGlue(a, ':', "");
    TidyGlue(a + [':'] + "", ':', b);
    assert a + [':'] + "" + [':'] + b == a + "::" + b;
  }

  /** Prints an address; the text fits the 46 characters set aside for it. */
  method Ntop6(src: octets) returns (text: string, ghost base: int, ghost len: int)
    requires |src| == 16
    ensures IsBest(Groups(src), base, len) && (base == -1 || (0 <= base && 0 <= len && base + len <= 8))
    ensures text == Text6(src, base, len) && |text| < 46 && Parse6Text(text) == Some(src) && IsTidy(text)
    ensures var ws := Groups(src);
      if IsMapped(ws) then text == "::ffff:" + Text4(src[12..])
      else if IsCompatible(ws) then text == "::" + Text4(src[12..])
      else
        && '.' !in text
        && text == if base == -1 then Joined(ws) else Joined(ws[..base]) + "::" + Joined(ws[base + len..])
  {
    hide IsBest, Joined, Hex, Text4, Parse6Text, Groups, IsTidy, IsMapped, IsCompatible;
    var words := GatherWords(src);
    var bestBase, bestLen := FindBest(words);
    base, len := bestBase, bestLen;
    ghost var ws := words[..];
    BestIsRun(ws, base, len);
    RoundTrip6(src, base, len);
    TextFits(src, base, len);
    PrintedForm(src, base, len);
    Text6Tidy(src, base, len);
    text := "";
    NothingWritten(ws, base, len);
    for i := 0 to 8
      invariant words[..] == ws && text == TextUpTo(ws, base, len, i)
      invariant HasV4Tail(ws, base, len) ==> i <= 6
    {
      NextGroup(ws, base, len, i);
      if bestBase != -1 && i >= bestBase && i < bestBase + bestLen {
        if i == bestBase { text := text + ":"; }
        continue;
      }
      ghost var sofar := text;
      if i != 0 { text := text + ":"; }
      if IsEncapsulated(words[..], bestBase, bestLen, i) {
        V4Written(src, len);
        text := text + Text4(src[12..]);
        return;
      }
      text := text + Hex(words[i]);
      assert text == sofar + ((if i != 0 then ":" else "") + Hex(ws[i]));
    }
    if bestBase != -1 && bestBase + bestLen == 8 {
      text := text + ":";
    }
    AllWritten(src, base, len);
  }

  lemma BestIsRun(ws: seq<group>, base: int, len: int)
    requires IsBest(ws, base, len)
    ensures base != -1 ==> ZeroRun(ws, base, len) && 0 <= base && 2 <= len && base + len <= |ws|
  {
  }

  lemma NothingWritten(ws: seq<group>, base: int, len: int)
    requires base == -1 || (0 <= base && 1 <= len && base + len <= |ws|)
    ensures TextUpTo(ws, base, len, 0) == ""
  {
  }

  lemma V4Written(a: octets, len: int)
    requires |a| == 16 && ZeroRun(Groups(a), 0, len) && HasV4Tail(Groups(a), 0, len)
    ensures Text6(a, 0, len) == TextUpTo(Groups(a), 0, len, 6) + ":" + Text4(a[12..])
  {
    hide Text4, Groups;
    var ws := Groups(a);
    FourFs();
    if len == 5 {
      assert ws[5..6] == [0xffff];
      assert Joined(ws[5..6]) == "ffff";
    }
    assert ws[..0] == [] && Joined(ws[..0]) == "";
  }

  lemma AllWritten(a: octets, base: int, len: int)
    requires |a| == 16 && (base == -1 || ZeroRun(Groups(a), base, len))
    requires base != -1 ==> !HasV4Tail(Groups(a), base, len)
    ensures base == -1 || (0 <= base && 1 <= len && base + len <= 8)
    ensures Text6(a, base, len) == TextUpTo(Groups(a), base, len, 8) + if base != -1 && base + len == 8 then ":" else ""
  {
    hide Groups;
    var ws := Groups(a);
    assert ws[..8] == ws;
    if base != -1 && base + len == 8 { assert ws[8..] == []; }
    else if base != -1 { assert ws[base + len..8] == ws[base + len..]; }
  }

  /** Moves what follows a left-out run to the end, by hand and in place, zeros in between. */
  method ShiftRight6(tmp: array<byte>, tp: nat, colon: nat)
    requires tmp.Length == 16 && colon <= tp < 16 && forall i :: tp <= i < 16 ==> tmp[i] == 0
    modifies tmp
    ensures tmp[..] == old(tmp[..colon]) + Zeros(16 - tp) + old(tmp[colon..tp])
  {
    var n := tp - colon;
    for i := 1 to n + 1
      invariant forall k :: 0 <= k < tp - (i - 1) ==> tmp[k] == old(tmp[k])
      invariant forall k :: tp - (i - 1) <= k < 16 - (i - 1) ==> tmp[k] == 0
      invariant forall k :: 16 - (i - 1) <= k < 16 ==> tmp[k] == old(tmp[k - (16 - tp)])
    {
      tmp[16 - i] := tmp[colon + n - i];
      tmp[colon + n - i] := 0;
    }
  }

  method StoreGroup(tmp: array<byte>, tp: nat, val: group)
    requires tmp.Length == 16 && tp + 2 <= 16 && forall i :: tp <= i < 16 ==> tmp[i] == 0
    modifies tmp
    ensures tmp[..tp + 2] == Put(old(tmp[..tp]), val) && forall i :: tp + 2 <= i < 16 ==> tmp[i] == 0
  {
    tmp[tp] := val / 256;
    tmp[tp + 1] := val % 256;
  }

  method StoreV4(tmp: array<byte>, tp: nat, a: octets)
    requires tmp.Length == 16 && tp + 4 <= 16 && |a| == 4 && forall i :: tp <= i < 16 ==> tmp[i] == 0
    modifies tmp
    ensures tmp[..tp + 4] == old(tmp[..tp]) + a && forall i :: tp + 4 <= i < 16 ==> tmp[i] == 0
  {
    for k := 0 to 4
      invariant forall j :: 0 <= j < tp ==> tmp[j] == old(tmp[j])
      invariant forall j :: 0 <= j < k ==> tmp[tp + j] == a[j]
      invariant forall j :: tp + 4 <= j < 16 ==> tmp[j] == 0
    {
      tmp[tp + k] := a[k];
    }
  }

  /** Reads an address from its text. */
  method Pton6(text: string) returns (r: Option<octets>)
    ensures r == Parse6Text(text)
  {
    hide Parse6, DigitValue, Parse4, Numeral, Power;
    var tmp := new byte[16](_ => 0);
    var tp: nat := 0;
    var colon: Option<nat> := None;
    var i: nat := 0;
    if |text| > 0 && text[0] == ':' {
      i := 1;
      if |text| == 1 || text[1] != ':' { return None; }
    }
    var curtok, seen: nat, val: nat := i, 0, 0;
    PowerGrows(0);
    assert text[0..] == text && tmp[..0] == [];
    while i < |text|
      invariant curtok <= i <= |text| && seen <= 4 && val < Power(16, seen) && tp <= 16
      invariant (colon.Some? ==> colon.value <= tp)
      invariant seen == 0 ==> val == 0
      invariant forall k :: tp <= k < 16 ==> tmp[k] == 0
      invariant Parse6Text(text) == Parse6(text[i..], text[curtok..], seen, val, tmp[..tp], colon)
    {
      var ch := text[i];
      ghost var rest := text[i..];
      assert rest[0] == ch && rest[1..] == text[i + 1..];
      Parse6Step(rest, text[curtok..], seen, val, tmp[..tp], colon);
      PowerGrows(seen);
      i := i + 1;
      if DigitValue(ch) < 16 {
        OrDigit(val, DigitValue(ch));
        val := BitOr(val * 16, DigitValue(ch));
        seen := seen + 1;
        if seen > 4 { return None; }
        continue;
      }
      if ch == ':' {
        curtok := i;
        if seen == 0 {
          if colon.Some? { return None; }
          colon := Some(tp);
          continue;
        } else if i == |text| {
          return None;
        }
        if tp + 2 > 16 { return None; }
        StoreGroup(tmp, tp, val);
        tp, seen, val := tp + 2, 0, 0;
        continue;
      }
      if ch == '.' && tp + 4 <= 16 {
        var v4 := Pton4(text[curtok..]);
        if v4.Some? {
          StoreV4(tmp, tp, v4.value);
          r := FinishAddress(tmp, tp + 4, colon);
          return;
        }
      }
      return None;
    }
    assert text[i..] == "";
    Parse6Ends(text[curtok..], seen, val, tmp[..tp], colon);
    PowerGrows(seen);
    if seen > 0 {
      if tp + 2 > 16 { return None; }
      StoreGroup(tmp, tp, val);
      tp := tp + 2;
    }
    r := FinishAddress(tmp, tp, colon);
  }

  /** The left-out run filled in; the address has to be complete. */
  method FinishAddress(tmp: array<byte>, tp: nat, colon: Option<nat>) returns (r: Option<octets>)
    requires tmp.Length == 16 && tp <= 16 && (colon.Some? ==> colon.value <= tp)
    requires forall i :: tp <= i < 16 ==> tmp[i] == 0
    modifies tmp
    ensures r == Finish(old(tmp[..tp]), colon)
  {
    if colon.Some? {
      if tp == 16 { return None; }
      ghost var out := tmp[..tp];
      assert out[..colon.value] == tmp[..colon.value] && out[colon.value..] == tmp[colon.value..tp];
      ShiftRight6(tmp, tp, colon.value);
    } else if tp != 16 {
      return None;
    } else {
      assert tmp[..tp] == tmp[..];
    }
    return Some(tmp[..]);
  }

  lemma OrDigit(val: nat, d: nat)
    requires d < 16
    ensures BitOr(val * 16, d) == val * 16 + d
  {
    assert Pow2(4) == 16 by { assert Pow2(2) == 4; }
    OrLow(val, 4, d);
  }

  lemma Parse6Ends(tok: string, seen: nat, val: nat, out: octets, colon: Option<nat>)
    requires seen <= 4 && val < Power(16, seen) && |out| <= 16 && (colon.Some? ==> colon.value <= |out|)
    ensures val < 0x10000
    ensures Parse6("", tok, seen, val, out, colon) ==
      if seen == 0 then Finish(out, colon) else if |out| + 2 > 16 then None else Finish(Put(out, val), colon)
  {
    PowerGrows(seen);
  }

  /** One character more. */
  lemma Parse6Step(src: string, tok: string, seen: nat, val: nat, out: octets, colon: Option<nat>)
    requires src != "" && seen <= 4 && val < Power(16, seen) && |out| <= 16 && (colon.Some? ==> colon.value <= |out|)
    ensures val < 0x10000 && Power(16, seen + 1) == 16 * Power(16, seen) && Power(16, 0) == 1
    ensures Parse6(src, tok, seen, val, out, colon) ==
      if DigitValue(src[0]) < 16 then
        (if seen == 4 then None else Parse6(src[1..], tok, seen + 1, val * 16 + DigitValue(src[0]), out, colon))
      else if src[0] == ':' then
        (if seen == 0 then (if colon.Some? then None else Parse6(src[1..], src[1..], 0, 0, out, Some(|out|)))
         else if |src| == 1 || |out| + 2 > 16 then None
         else Parse6(src[1..], src[1..], 0, 0, Put(out, val), colon))
      else if src[0] == '.' && |out| + 4 <= 16 && Parse4(tok, [], 0, false).Some?
        && |Parse4(tok, [], 0, false).value| == 4 then
        Finish(out + Parse4(tok, [], 0, false).value, colon)
      else None
  {
    PowerGrows(seen);
    AcceptsOnlyPrinted4(tok, [], 0, false);
  }
}
