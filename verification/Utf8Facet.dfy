/**
 * Converting between wide characters and UTF-8 of up to six octets (section 2 of RFC 2279), as
 * source/io/fs/path_impl/Utf8CodecvtFacet.cpp does it with 32-bit wide characters: into a buffer
 * of limited room, from input that may break off in the middle of a character.
 */
module Utf8Facet {
  import opened Words

  type octet = byte
  type wide = x: int | 0 <= x < 0x8000_0000

  datatype Status = Ok | Partial | Error

  /** How a call ends, how much input it has used, and what it has put out. */
  datatype Outcome<T> = Outcome(status: Status, used: nat, output: seq<T>)

  /** What a call that starts with `used` and `output` behind it comes to. */
  function After<T>(used: nat, output: seq<T>, rest: Outcome<T>): Outcome<T> {
    Outcome(rest.status, used + rest.used, output + rest.output)
  }

  lemma AfterAfter<T>(used1: nat, output1: seq<T>, used2: nat, output2: seq<T>, rest: Outcome<T>)
    ensures After(used1, output1, After(used2, output2, rest)) == After(used1 + used2, output1 + output2, rest)
  {
    assert output1 + (output2 + rest.output) == (output1 + output2) + rest.output;
  }

  lemma AfterNothing<T>(rest: Outcome<T>)
    ensures After(0, [], rest) == rest
  {
  }

  // ---------- one character ----------

  function Pow64(k: nat): nat
    requires k <= 5
  {
    if k == 0 then 1 else if k == 1 then 64 else if k == 2 then 4096
    else if k == 3 then 262144 else if k == 4 then 16777216 else 1073741824
  }

  function Octet1Modifier(k: nat): octet
    requires k <= 5
  {
    if k == 0 then 0x00 else if k == 1 then 0xc0 else if k == 2 then 0xe0
    else if k == 3 then 0xf0 else if k == 4 then 0xf8 else 0xfc
  }

  /** How many octets follow the first. */
  function ContinuingOut(c: wide): (k: nat)
    ensures k <= 5
  {
    if c < 0x80 then 0 else if c < 0x800 then 1 else if c < 0x10000 then 2
    else if c < 0x200000 then 3 else if c < 0x4000000 then 4 else 5
  }

  function OctetCount(lead: octet): (n: nat)
    ensures 1 <= n <= 6
  {
    if lead <= 0x7f then 1
    else if 0xc0 <= lead <= 0xdf then 2
    else if 0xe0 <= lead <= 0xef then 3
    else if 0xf0 <= lead <= 0xf7 then 4
    else if 0xf8 <= lead <= 0xfb then 5
    else 6
  }

  predicate InvalidLeading(o: octet) { (0x7f < o && o < 0xc0) || o > 0xfd }

  predicate InvalidContinuing(o: octet) { o < 0x80 || 0xbf < o }

  function LeadOctet(c: wide): octet {
    var k := ContinuingOut(c);
    LeadFits(c);
    Octet1Modifier(k) + c / Pow64(k)
  }

  lemma LeadFits(c: wide)
    ensures var k := ContinuingOut(c); Octet1Modifier(k) + c / Pow64(k) < 256
  {
  }

  /** The last `k` octets of `c`, six bits each. */
  function Continuing(c: wide, k: nat): (r: seq<octet>)
    requires k <= 5
    ensures |r| == k && forall i :: 0 <= i < k ==> !InvalidContinuing(r[i])
  {
    if k == 0 then [] else [0x80 + (c / Pow64(k - 1)) % 64] + Continuing(c, k - 1)
  }

  function Encoded(c: wide): (r: seq<octet>)
    ensures |r| == ContinuingOut(c) + 1
  {
    [LeadOctet(c)] + Continuing(c, ContinuingOut(c))
  }

  /** How many of the first `k` octets after the first are there and valid. */
  function ValidContinuing(from: seq<octet>, k: nat): (i: nat)
    ensures i <= k && i <= |from| && (forall j :: 0 <= j < i ==> !InvalidContinuing(from[j]))
    ensures i < k && i < |from| ==> InvalidContinuing(from[i])
  {
    if k == 0 || from == [] || InvalidContinuing(from[0]) then 0 else 1 + ValidContinuing(from[1..], k - 1)
  }

  /** `v`, and six more bits from each octet. */
  function Value(v: nat, octets: seq<octet>): nat
    requires forall i :: 0 <= i < |octets| ==> !InvalidContinuing(octets[i])
    decreases |octets|
  {
    if octets == [] then v else
      assert !InvalidContinuing(octets[0]);
      Value(v * 64 + octets[0] as int - 0x80, octets[1..])
  }

  /** What the value bits of a first octet stay below, if `k` octets follow it. */
  function LeadLimit(k: nat): nat {
    if k == 0 then 128 else if k == 1 then 32 else if k == 2 then 16 else if k == 3 then 8 else if k == 4 then 4 else 2
  }

  function LeadValue(lead: octet): (v: nat)
    requires !InvalidLeading(lead)
    ensures v < LeadLimit(OctetCount(lead) - 1)
  {
    lead - Octet1Modifier(OctetCount(lead) - 1)
  }

  lemma {:induction false} ValueBound(v: nat, octets: seq<octet>, bound: nat)
    requires v < bound && |octets| <= 5
    requires forall i :: 0 <= i < |octets| ==> !InvalidContinuing(octets[i])
    ensures Value(v, octets) < bound * Pow64(|octets|)
    decreases |octets|
  {
    if octets != [] { ValueBound(v * 64 + octets[0] as int - 0x80, octets[1..], bound * 64); }
  }

  /** No character decoded exceeds 31 bits. */
  lemma DecodedFits(lead: octet, octets: seq<octet>)
    requires !InvalidLeading(lead) && |octets| == OctetCount(lead) - 1
    requires forall i :: 0 <= i < |octets| ==> !InvalidContinuing(octets[i])
    ensures Value(LeadValue(lead), octets) < 0x8000_0000
  {
    ValueBound(LeadValue(lead), octets, LeadLimit(|octets|));
  }

  lemma GroupBack(c: wide, k: nat)
    requires 0 < k <= 5
    ensures c / Pow64(k) * 64 + (c / Pow64(k - 1)) % 64 == c / Pow64(k - 1)
  {
    assert c / Pow64(k - 1) / 64 == c / Pow64(k);
  }

  /** Putting the six-bit groups back together gives the character. */
  lemma {:induction false} GroupsBack(c: wide, k: nat)
    requires k <= 5
    ensures Value(c / Pow64(k), Continuing(c, k)) == c
    decreases k
  {
    if k > 0 {
      var d := c / Pow64(k - 1);
      GroupBack(c, k);
      assert Continuing(c, k)[1..] == Continuing(c, k - 1);
      GroupsBack(c, k - 1);
    }
  }

  lemma LeadBack(c: wide)
    ensures var o, k := LeadOctet(c), ContinuingOut(c);
      !InvalidLeading(o) && OctetCount(o) == k + 1 && LeadValue(o) == c / Pow64(k)
  {
  }

  // ---------- calls ----------

  function Out(from: seq<wide>, room: nat): Outcome<octet>
    decreases |from|
  {
    if from == [] then Outcome(Ok, 0, [])
    else if |Encoded(from[0])| > room then Outcome(Partial, 0, [])
    else After(1, Encoded(from[0]), Out(from[1..], room - |Encoded(from[0])|))
  }

  function In(from: seq<octet>, room: nat): Outcome<wide>
    decreases |from|
  {
    if from == [] then Outcome(Ok, 0, [])
    else if room == 0 then Outcome(Partial, 0, [])
    else if InvalidLeading(from[0]) then Outcome(Error, 0, [])
    else
      var k := OctetCount(from[0]) - 1;
      var i := ValidContinuing(from[1..], k);
      if i < k && i < |from| - 1 then Outcome(Error, 1 + i, [])
      else if i < k then Outcome(Partial, 0, [])
      else
        var octets := from[1..][..k];
        DecodedFits(from[0], octets);
        After(1 + k, [Value(LeadValue(from[0]), octets)], In(from[1 + k..], room - 1))
  }

  function EncodedAll(cs: seq<wide>): seq<octet> {
    if cs == [] then [] else Encoded(cs[0]) + EncodedAll(cs[1..])
  }

  // ---------- what they promise ----------

  /** A call with enough room puts out everything; one without stops before the first character that does not fit. */
  lemma {:induction false} OutIs(from: seq<wide>, room: nat)
    ensures var r := Out(from, room);
      && r.used <= |from| && r.output == EncodedAll(from[..r.used]) && |r.output| <= room
      && (r.status == Ok <==> r.used == |from|) && (r.status == Partial <==> r.used < |from|)
      && (r.used < |from| ==> |r.output| + |Encoded(from[r.used])| > room)
  {
    if from == [] {
    } else if |Encoded(from[0])| <= room {
      OutIs(from[1..], room - |Encoded(from[0])|);
      var rest := Out(from[1..], room - |Encoded(from[0])|);
      assert from[..rest.used + 1][1..] == from[1..][..rest.used];
    } else {
      assert from[..0] == [];
    }
  }

  lemma {:induction false} OutAll(from: seq<wide>, room: nat)
    requires room >= |EncodedAll(from)|
    ensures Out(from, room) == Outcome(Ok, |from|, EncodedAll(from))
  {
    if from != [] { OutAll(from[1..], room - |Encoded(from[0])|); }
  }

  /** The octets of one character, whatever follows, decode to that character. */
  lemma DecodesOne(c: wide, rest: seq<octet>, room: nat)
    requires room > 0
    ensures In(Encoded(c) + rest, room) == After(|Encoded(c)|, [c], In(rest, room - 1))
  {
    var from, k := Encoded(c) + rest, ContinuingOut(c);
    LeadBack(c);
    GroupsBack(c, k);
    assert from[0] == LeadOctet(c) && from[1..][..k] == Continuing(c, k) && from[1 + k..] == rest;
    assert forall j :: 0 <= j < k ==> from[1..][j] == Continuing(c, k)[j];
  }

  /** Decoding what was encoded gives it back, octet for octet used. */
  lemma {:induction false} RoundTrip(cs: seq<wide>, room: nat)
    requires room >= |cs|
    ensures In(EncodedAll(cs), room) == Outcome(Ok, |EncodedAll(cs)|, cs)
  {
    hide In, Encoded;
    if cs == [] {
      InEnds([], room);
    } else {
      DecodesOne(cs[0], EncodedAll(cs[1..]), room);
      RoundTrip(cs[1..], room - 1);
      assert [cs[0]] + cs[1..] == cs;
    }
  }

  // ---------- encoding what was decoded ----------

  /** A first and a second octet of a character that would fit in fewer octets. */
  predicate Overlong(lead: octet, next: octet) {
    || lead == 0xc0 || lead == 0xc1 || (lead == 0xe0 && next < 0xa0) || (lead == 0xf0 && next < 0x90)
    || (lead == 0xf8 && next < 0x88) || (lead == 0xfc && next < 0x84)
  }

  predicate HasOverlong(octets: seq<octet>) { exists i :: 0 <= i < |octets| - 1 && Overlong(octets[i], octets[i + 1]) }

  /** Taking a value apart gives the octets it was put together from. */
  lemma {:induction false} GroupsApart(v: nat, octets: seq<octet>)
    requires |octets| <= 5 && forall i :: 0 <= i < |octets| ==> !InvalidContinuing(octets[i])
    requires Value(v, octets) < 0x8000_0000
    ensures var c := Value(v, octets); c / Pow64(|octets|) == v && Continuing(c, |octets|) == octets
    ensures octets != [] ==> Value(v, octets) / Pow64(|octets| - 1) == v * 64 + octets[0] as int - 0x80
    decreases |octets|
  {
    if octets != [] {
      var c, d := Value(v, octets), octets[0] as int - 0x80;
      GroupsApart(v * 64 + d, octets[1..]);
      GroupBack(c, |octets|);
      assert octets == [octets[0]] + octets[1..];
    }
  }

  predicate IsCharacter(lead: octet, octets: seq<octet>) {
    && !InvalidLeading(lead) && |octets| == OctetCount(lead) - 1
    && forall i :: 0 <= i < |octets| ==> !InvalidContinuing(octets[i])
  }

  /** The two first octets say whether fewer would do. */
  lemma OverlongExactly(lead: octet, octets: seq<octet>)
    requires IsCharacter(lead, octets) && Value(LeadValue(lead), octets) < 0x8000_0000
    ensures ContinuingOut(Value(LeadValue(lead), octets)) <= |octets|
    ensures ContinuingOut(Value(LeadValue(lead), octets)) < |octets| <==> octets != [] && Overlong(lead, octets[0])
  {
    hide Value, Continuing;
    var c, k := Value(LeadValue(lead), octets), |octets|;
    GroupsApart(LeadValue(lead), octets);
    ValueBound(LeadValue(lead), octets, LeadLimit(k));
    if k > 0 { Thresholds(c, k); }
  }

  /** Which values need fewer than `k` octets after the first. */
  lemma Thresholds(c: wide, k: nat)
    requires 0 < k <= 5
    ensures ContinuingOut(c) < k <==> c / Pow64(k - 1) < LeadLimit(k - 1)
  {
  }

  /** One character is encoded as it came if and only if it is not overlong; otherwise it starts differently. */
  lemma OneBack(lead: octet, octets: seq<octet>)
    requires IsCharacter(lead, octets) && Value(LeadValue(lead), octets) < 0x8000_0000
    ensures var c, overlong := Value(LeadValue(lead), octets), octets != [] && Overlong(lead, octets[0]);
      if overlong then Encoded(c)[0] != lead else Encoded(c) == [lead] + octets
  {
    hide Value, Continuing, LeadOctet, LeadValue, OctetCount, Overlong, ContinuingOut, InvalidLeading, Pow64;
    var c := Value(LeadValue(lead), octets);
    OverlongExactly(lead, octets);
    GroupsApart(LeadValue(lead), octets);
    SameLead(c, lead, |octets|);
  }

  lemma SameLead(c: wide, lead: octet, k: nat)
    requires !InvalidLeading(lead) && k == OctetCount(lead) - 1
    ensures ContinuingOut(c) != k ==> LeadOctet(c) != lead
    ensures ContinuingOut(c) == k && c / Pow64(k) == LeadValue(lead) ==> LeadOctet(c) == lead
  {
    LeadBack(c);
  }

  /** Pairs of octets in a character and what follows: only its first pair matters. */
  lemma OverlongFirst(lead: octet, octets: seq<octet>, rest: seq<octet>)
    requires IsCharacter(lead, octets)
    ensures HasOverlong([lead] + octets + rest) <==> (octets != [] && Overlong(lead, octets[0])) || HasOverlong(rest)
  {
    hide Overlong, HasOverlong, InvalidContinuing, OctetCount;
    var all := [lead] + octets + rest;
    var tail := all[1..];
    assert tail == octets + rest;
    LeadsOnly(octets, rest);
    if octets == [] { ShortAlone(lead, octets); }
    assert all == [lead] + tail;
    OverlongCons(lead, tail);
  }

  lemma ShortAlone(lead: octet, octets: seq<octet>)
    requires IsCharacter(lead, octets) && octets == []
    ensures forall next :: !Overlong(lead, next)
  {
  }

  lemma OverlongCons(o: octet, rest: seq<octet>)
    ensures HasOverlong([o] + rest) <==> (rest != [] && Overlong(o, rest[0])) || HasOverlong(rest)
  {
    hide Overlong;
    var all := [o] + rest;
    assert forall i :: 0 <= i < |rest| ==> all[i + 1] == rest[i];
    if rest != [] && Overlong(o, rest[0]) { assert Overlong(all[0], all[0 + 1]); }
    if HasOverlong(rest) {
      var i :| 0 <= i < |rest| - 1 && Overlong(rest[i], rest[i + 1]);
      assert Overlong(all[i + 1], all[i + 1 + 1]);
    }
    if HasOverlong(all) {
      var i :| 0 <= i < |all| - 1 && Overlong(all[i], all[i + 1]);
      if i > 0 { assert Overlong(rest[i - 1], rest[i - 1 + 1]); }
    }
  }

  /** Continuing octets form no such pair. */
  lemma {:induction false} LeadsOnly(octets: seq<octet>, rest: seq<octet>)
    requires forall i :: 0 <= i < |octets| ==> !InvalidContinuing(octets[i])
    ensures HasOverlong(octets + rest) <==> HasOverlong(rest)
  {
    hide HasOverlong;
    if octets == [] {
      assert octets + rest == rest;
    } else {
      assert octets + rest == [octets[0]] + (octets[1..] + rest);
      OverlongCons(octets[0], octets[1..] + rest);
      LeadsOnly(octets[1..], rest);
    }
  }

  /** Encoding what was decoded gives the octets back if and only if none of them form an overlong character. */
  lemma {:induction false} EncodesBackExactly(from: seq<octet>, room: nat)
    requires In(from, room).status != Error
    ensures var r := In(from, room);
      r.used <= |from| && (EncodedAll(r.output) == from[..r.used] <==> !HasOverlong(from[..r.used]))
    decreases |from|
  {
    hide In, Value, LeadValue, OctetCount, HasOverlong, Encoded, EncodedAll, ValidContinuing;
    var r := In(from, room);
    if r.used == 0 {
      InStops(from, room);
      NothingEncoded();
      assert from[..r.used] == [];
    } else {
      InUnfolds(from, room);
      var k := OctetCount(from[0]) - 1;
      var octets, next, rest := from[1..][..k], from[1 + k..], In(from[1 + k..], room - 1);
      EncodesBackExactly(next, room - 1);
      SplitFirst(from, k, rest.used);
      BackWithRest(from[0], octets, next[..rest.used], rest.output);
    }
  }

  lemma NothingEncoded()
    ensures EncodedAll([]) == [] && !HasOverlong([])
  {
  }

  lemma SplitFirst(from: seq<octet>, k: nat, n: nat)
    requires 1 + k + n <= |from|
    ensures from[..1 + k + n] == [from[0]] + from[1..][..k] + from[1 + k..][..n]
  {
  }

  /** One character and what follows it. */
  lemma BackWithRest(lead: octet, octets: seq<octet>, rest: seq<octet>, cs: seq<wide>)
    requires IsCharacter(lead, octets) && Value(LeadValue(lead), octets) < 0x8000_0000
    requires EncodedAll(cs) == rest <==> !HasOverlong(rest)
    ensures var all := [lead] + octets + rest;
      EncodedAll([Value(LeadValue(lead), octets)] + cs) == all <==> !HasOverlong(all)
  {
    hide Value, LeadValue, OctetCount, HasOverlong, Encoded, EncodedAll;
    var c: wide, all := Value(LeadValue(lead), octets), [lead] + octets + rest;
    OneBack(lead, octets);
    OverlongFirst(lead, octets, rest);
    FirstEncoded(c, cs);
    var encoded := Encoded(c) + EncodedAll(cs);
    if octets != [] && Overlong(lead, octets[0]) {
      assert encoded[0] == Encoded(c)[0];
    } else {
      assert encoded[1 + |octets|..] == EncodedAll(cs) && all[1 + |octets|..] == rest;
    }
  }

  /** How decoding goes on behind a first character. */
  lemma InGoesOn(from: seq<octet>, room: nat)
    requires from != [] && room > 0 && !InvalidLeading(from[0])
    requires ValidContinuing(from[1..], OctetCount(from[0]) - 1) == OctetCount(from[0]) - 1
    ensures var k := OctetCount(from[0]) - 1;
      && k < |from| && Value(LeadValue(from[0]), from[1..][..k]) < 0x8000_0000
      && In(from, room) == After(1 + k, [Value(LeadValue(from[0]), from[1..][..k])], In(from[1 + k..], room - 1))
  {
    hide Value, LeadValue;
    DecodedFits(from[0], from[1..][..OctetCount(from[0]) - 1]);
  }

  lemma {:induction false} ValidPrefix(from: seq<octet>, k: nat, n: nat)
    requires ValidContinuing(from, k) == k <= n <= |from|
    ensures ValidContinuing(from[..n], k) == k
    decreases k
  {
    if k > 0 {
      assert from[..n][1..] == from[1..][..n - 1];
      ValidPrefix(from[1..], k - 1, n - 1);
    }
  }

  /** Octet `i` is the one that makes `t` start with no character: a bad first one, or a bad one behind a good start. */
  predicate BadAt(t: seq<octet>, i: nat) {
    && i < |t|
    && if i == 0 then InvalidLeading(t[0])
       else
         && !InvalidLeading(t[0]) && i < OctetCount(t[0]) && InvalidContinuing(t[i])
         && forall j :: 1 <= j < i ==> !InvalidContinuing(t[j])
  }

  /** The beginning of a character, and nothing behind it. */
  predicate IsCut(t: seq<octet>) {
    && t != [] && !InvalidLeading(t[0]) && |t| < OctetCount(t[0])
    && forall j :: 1 <= j < |t| ==> !InvalidContinuing(t[j])
  }

  /**
   * What is put out before an error is what the octets before the bad character come to by
   * themselves, and the input used ends at the octet that is bad.
   */
  lemma {:induction false} BeforeError(from: seq<octet>, room: nat) returns (n: nat)
    requires In(from, room).status == Error
    ensures n <= In(from, room).used <= |from|
    ensures In(from[..n], room) == Outcome(Ok, n, In(from, room).output)
    ensures BadAt(from[n..], In(from, room).used - n)
    decreases |from|
  {
    hide Value, LeadValue, OctetCount, ValidContinuing, In, BadAt;
    FirstBad(from, room);
    var k := OctetCount(from[0]) - 1;
    if InvalidLeading(from[0]) || ValidContinuing(from[1..], k) != k {
      InEnds([], room);
      assert from[..0] == [] && from[0..] == from;
      n := 0;
    } else {
      InGoesOn(from, room);
      var m := BeforeError(from[1 + k..], room - 1);
      n := 1 + k + m;
      var part := from[..n];
      assert part[1..] == from[1..][..n - 1] && part[1..][..k] == from[1..][..k];
      assert part[1 + k..] == from[1 + k..][..m] && from[1 + k..][m..] == from[n..];
      ValidPrefix(from[1..], k, n - 1);
      InGoesOn(part, room);
    }
  }

  lemma FirstBad(from: seq<octet>, room: nat)
    requires In(from, room).status == Error
    ensures from != [] && room > 0
    ensures var k := OctetCount(from[0]) - 1;
      InvalidLeading(from[0]) || ValidContinuing(from[1..], k) != k ==>
        In(from, room).output == [] && In(from, room).used < |from| && BadAt(from, In(from, room).used)
  {
    hide Value, LeadValue;
    var k := OctetCount(from[0]) - 1;
    if !InvalidLeading(from[0]) && ValidContinuing(from[1..], k) != k {
      var i := ValidContinuing(from[1..], k);
      assert forall j :: 1 <= j < i + 1 ==> from[j] == from[1..][j - 1];
    }
  }

  /** How a call ends: with all input used, for want of room or of the rest of a character, or at a bad octet. */
  lemma {:induction false} HowItEnds(from: seq<octet>, room: nat)
    ensures var r := In(from, room);
      && r.used <= |from| && |r.output| <= room
      && (r.status == Ok <==> r.used == |from|)
      && (r.status == Partial ==> |r.output| == room || IsCut(from[r.used..]))
      && (r.status == Error ==> |r.output| < room)
    decreases |from|
  {
    hide Value, LeadValue, OctetCount, ValidContinuing, In, IsCut;
    if from == [] || room == 0 {
      InEnds(from, room);
    } else {
      var k := OctetCount(from[0]) - 1;
      if InvalidLeading(from[0]) || ValidContinuing(from[1..], k) != k {
        FirstEnds(from, room);
      } else {
        InGoesOn(from, room);
        HowItEnds(from[1 + k..], room - 1);
        var rest := In(from[1 + k..], room - 1);
        assert from[1 + k..][rest.used..] == from[1 + k + rest.used..];
      }
    }
  }

  lemma FirstEnds(from: seq<octet>, room: nat)
    requires from != [] && room > 0
    requires var k := OctetCount(from[0]) - 1; InvalidLeading(from[0]) || ValidContinuing(from[1..], k) != k
    ensures var r := In(from, room);
      && r.output == [] && r.used < |from| && r.status != Ok
      && (r.status == Partial ==> r.used == 0 && IsCut(from[r.used..]))
  {
    hide Value, LeadValue;
    var k := OctetCount(from[0]) - 1;
    if !InvalidLeading(from[0]) && ValidContinuing(from[1..], k) != k {
      var i := ValidContinuing(from[1..], k);
      assert forall j :: 1 <= j < i + 1 ==> from[j] == from[1..][j - 1];
      assert from[0..] == from;
    }
  }

  /** It happens: two octets that decode to a character of one. */
  lemma OverlongExample()
    ensures In([0xc1, 0x81], 1) == Outcome(Ok, 2, [0x41]) && EncodedAll([0x41]) == [0x41]
  {
    var from: seq<octet> := [0xc1, 0x81];
    assert from[1..] == [0x81] && [0x81][..1] == [0x81] && from[2..] == [];
    assert ValidContinuing([0x81], 1) == 1;
    assert Value(1, [0x81]) == 0x41;
    FirstEncoded(0x41, []);
    assert [0x41] + [] == [0x41];
  }

  lemma FirstEncoded(c: wide, cs: seq<wide>)
    ensures EncodedAll([c] + cs) == Encoded(c) + EncodedAll(cs)
  {
    assert ([c] + cs)[1..] == cs;
  }

  /** Two calls, the second with room of its own and maybe more input, come to what one call does. */
  lemma {:induction false} OutResumed(from: seq<wide>, more: seq<wide>, room1: nat, room2: nat)
    ensures var r := Out(from, room1);
      && r.used <= |from|
      && After(r.used, r.output, Out(from[r.used..] + more, room2)) == Out(from + more, |r.output| + room2)
    decreases |from|
  {
    hide Encoded, Out;
    var r := Out(from, room1);
    if from == [] || |Encoded(from[0])| > room1 {
      OutStops(from, room1);
      assert from[0..] == from;
      AfterNothing(Out(from + more, room2));
    } else {
      var first, room := Encoded(from[0]), room1 - |Encoded(from[0])|;
      var rest := Out(from[1..], room);
      OutUnfolds(from, room1);
      OutResumed(from[1..], more, room, room2);
      assert (from + more)[1..] == from[1..] + more && from[1..][rest.used..] == from[r.used..];
      OutUnfolds(from + more, |r.output| + room2);
      AfterAfter(1, first, rest.used, rest.output, Out(from[r.used..] + more, room2));
    }
  }

  lemma OutStops(from: seq<wide>, room: nat)
    requires from == [] || |Encoded(from[0])| > room
    ensures Out(from, room) == Outcome(if from == [] then Ok else Partial, 0, [])
  {
  }

  lemma OutUnfolds(from: seq<wide>, room: nat)
    requires from != [] && |Encoded(from[0])| <= room
    ensures Out(from, room) == After(1, Encoded(from[0]), Out(from[1..], room - |Encoded(from[0])|))
  {
  }

  lemma InUnfolds(from: seq<octet>, room: nat)
    requires In(from, room).used > 0 && In(from, room).status != Error
    ensures from != [] && room > 0 && !InvalidLeading(from[0])
    ensures var k := OctetCount(from[0]) - 1;
      && k < |from| && ValidContinuing(from[1..], k) == k
      && Value(LeadValue(from[0]), from[1..][..k]) < 0x8000_0000
      && In(from, room) == After(1 + k, [Value(LeadValue(from[0]), from[1..][..k])], In(from[1 + k..], room - 1))
  {
    hide Value, LeadValue;
    if !InvalidLeading(from[0]) && ValidContinuing(from[1..], OctetCount(from[0]) - 1) == OctetCount(from[0]) - 1 {
      DecodedFits(from[0], from[1..][..OctetCount(from[0]) - 1]);
    }
  }

  lemma InStops(from: seq<octet>, room: nat)
    requires In(from, room).used == 0
    ensures In(from, room).output == []
  {
  }

  /** The same for decoding, as long as the first call has met no error. */
  lemma {:induction false} InResumed(from: seq<octet>, more: seq<octet>, room1: nat, room2: nat)
    requires In(from, room1).status != Error
    ensures var r := In(from, room1);
      && r.used <= |from|
      && After(r.used, r.output, In(from[r.used..] + more, room2)) == In(from + more, |r.output| + room2)
    decreases |from|
  {
    hide In, Value, LeadValue, ValidContinuing, OctetCount;
    var r := In(from, room1);
    if r.used == 0 {
      InStops(from, room1);
      assert from[0..] == from;
      AfterNothing(In(from + more, room2));
    } else {
      InUnfolds(from, room1);
      var k := OctetCount(from[0]) - 1;
      var c := Value(LeadValue(from[0]), from[1..][..k]);
      var rest := In(from[1 + k..], room1 - 1);
      InResumed(from[1 + k..], more, room1 - 1, room2);
      OneMore(from, more, k);
      InGoesOn(from + more, |r.output| + room2);
      assert from[1 + k..][rest.used..] == from[r.used..];
      AfterAfter(1 + k, [c], rest.used, rest.output, In(from[r.used..] + more, room2));
    }
  }

  /** More input does not change the character in front of it. */
  lemma OneMore(from: seq<octet>, more: seq<octet>, k: nat)
    requires from != [] && ValidContinuing(from[1..], k) == k
    ensures (from + more)[0] == from[0] && ValidContinuing((from + more)[1..], k) == k
    ensures (from + more)[1..][..k] == from[1..][..k] && (from + more)[1 + k..] == from[1 + k..] + more
  {
    assert (from + more)[1..] == from[1..] + more;
    assert forall j :: 0 <= j < k ==> (from + more)[1..][j] == from[1..][j];
  }

  // ---------- the loops ----------

  lemma {:induction false} ContinuingAt(c: wide, k: nat, i: nat)
    requires i < k <= 5
    ensures Continuing(c, k)[i] == 0x80 + (c / Pow64(k - 1 - i)) % 64
  {
    if i > 0 { ContinuingAt(c, k - 1, i - 1); }
  }

  /** Puts out characters as long as there is room for all of the next one. */
  method DoOut(from: seq<wide>, to: array<octet>) returns (status: Status, fromNext: nat, toNext: nat)
    modifies to
    ensures toNext <= to.Length && Outcome(status, fromNext, to[..toNext]) == Out(from, to.Length)
  {
    hide Encoded, Out, LeadOctet, Continuing;
    var f, t: nat := 0, 0;
    AfterNothing(Out(from, to.Length));
    assert from[0..] == from && to[..0] == [];
    while f != |from| && t != to.Length
      invariant f <= |from| && t <= to.Length
      invariant Out(from, to.Length) == After(f, to[..t], Out(from[f..], to.Length - t))
      decreases |from| - f
    {
      var c := from[f];
      ghost var before, rest := to[..t], from[f..];
      var size, whole := PutCharacter(c, to, t);
      assert rest[0] == c && rest[1..] == from[f + 1..];
      if !whole {
        OutStops(rest, to.Length - t);
        assert before + [] == before;
        return Partial, f, t;
      }
      OutUnfolds(rest, to.Length - t);
      AfterAfter(f, before, 1, Encoded(c), Out(from[f + 1..], to.Length - t - size));
      assert to[..t + size] == before + to[t..t + size];
      f, t := f + 1, t + size;
    }
    OutEnds(from[f..], to.Length - t);
    assert to[..t] + [] == to[..t];
    return if f == |from| then Ok else Partial, f, t;
  }

  lemma OutEnds(from: seq<wide>, room: nat)
    requires from == [] || room == 0
    ensures Out(from, room) == Outcome(if from == [] then Ok else Partial, 0, [])
  {
  }

  /** The octets of one character, as far as there is room. */
  method PutCharacter(c: wide, to: array<octet>, start: nat) returns (size: nat, whole: bool)
    requires start < to.Length
    modifies to
    ensures to[..start] == old(to[..start]) && size == |Encoded(c)|
    ensures whole <==> start + size <= to.Length
    ensures whole ==> to[start..start + size] == Encoded(c)
  {
    var k := ContinuingOut(c);
    var t, i, shift := start + 1, 0, k;
    to[start] := LeadOctet(c);
    while i != k && t != to.Length
      invariant i <= k && t == start + 1 + i <= to.Length && shift == k - i
      invariant to[..start] == old(to[..start])
      invariant to[start..t] == Encoded(c)[..1 + i]
    {
      shift := shift - 1;
      ContinuingAt(c, k, i);
      to[t] := 0x80 + (c / Pow64(shift)) % 64;
      assert to[start..t + 1] == to[start..t] + [to[t]];
      assert Encoded(c)[..2 + i] == Encoded(c)[..1 + i] + [Encoded(c)[1 + i]];
      t, i := t + 1, i + 1;
    }
    assert i == k ==> Encoded(c)[..1 + i] == Encoded(c);
    return k + 1, i == k;
  }

  /** Reads characters as long as there is room, up to an error or to one that breaks off. */
  method DoIn(from: seq<octet>, to: array<wide>) returns (status: Status, fromNext: nat, toNext: nat)
    modifies to
    ensures toNext <= to.Length && Outcome(status, fromNext, to[..toNext]) == In(from, to.Length)
  {
    hide In, Value, LeadValue, ValidContinuing;
    var f, t: nat := 0, 0;
    AfterNothing(In(from, to.Length));
    assert from[0..] == from && to[..0] == [];
    while f != |from| && t != to.Length
      invariant f <= |from| && t <= to.Length
      invariant In(from, to.Length) == After(f, to[..t], In(from[f..], to.Length - t))
      decreases |from| - f
    {
      ghost var before, rest := to[..t], from[f..];
      assert before + [] == before;
      if InvalidLeading(from[f]) {
        InFails(rest, to.Length - t);
        return Error, f, t;
      }
      var k := OctetCount(from[f]) - 1;
      var i, value := TakeCharacter(from, f, k);
      assert rest[0] == from[f] && rest[1..] == from[f + 1..];
      InFails(rest, to.Length - t);
      if i != k && f + 1 + i != |from| {
        return Error, f + 1 + i, t;
      }
      if i != k {
        return Partial, f, t;
      }
      assert rest[1..][..k] == from[f + 1..f + 1 + k] && rest[1 + k..] == from[f + 1 + k..];
      DecodedFits(from[f], rest[1..][..k]);
      InGoesOn(rest, to.Length - t);
      to[t] := value;
      assert to[..t + 1] == before + [value];
      AfterAfter(f, before, 1 + k, [value], In(from[f + 1 + k..], to.Length - t - 1));
      f, t := f + 1 + k, t + 1;
    }
    InEnds(from[f..], to.Length - t);
    assert to[..t] + [] == to[..t];
    return if f == |from| then Ok else Partial, f, t;
  }

  lemma InEnds(from: seq<octet>, room: nat)
    requires from == [] || room == 0
    ensures In(from, room) == Outcome(if from == [] then Ok else Partial, 0, [])
  {
  }

  /** The ways a character cannot be read. */
  lemma InFails(from: seq<octet>, room: nat)
    requires from != [] && room > 0
    ensures InvalidLeading(from[0]) ==> In(from, room) == Outcome(Error, 0, [])
    ensures var k := OctetCount(from[0]) - 1; var i := ValidContinuing(from[1..], k);
      !InvalidLeading(from[0]) && i < k ==>
        In(from, room) == (if i < |from| - 1 then Outcome(Error, 1 + i, []) else Outcome(Partial, 0, []))
  {
    hide Value, LeadValue;
  }

  /** The octets after the one at `start`, up to the end or an invalid one. */
  method TakeCharacter(from: seq<octet>, start: nat, k: nat) returns (i: nat, value: nat)
    requires start < |from| && !InvalidLeading(from[start]) && k == OctetCount(from[start]) - 1
    ensures i == ValidContinuing(from[start + 1..], k) <= |from| - start - 1
    ensures var tail := from[start + 1..]; forall j :: 0 <= j < i ==> !InvalidContinuing(tail[j])
    ensures value == Value(LeadValue(from[start]), from[start + 1..][..i])
  {
    ghost var tail := from[start + 1..];
    value := from[start] - Octet1Modifier(k);
    i := 0;
    while i != k && start + 1 + i != |from|
      invariant i <= k && start + 1 + i <= |from|
      invariant forall j :: 0 <= j < i ==> !InvalidContinuing(tail[j])
      invariant value == Value(LeadValue(from[start]), tail[..i])
    {
      if InvalidContinuing(from[start + 1 + i]) {
        ValidIs(tail, k, i);
        return;
      }
      ValueMore(LeadValue(from[start]), tail, i);
      value := value * 64 + from[start + 1 + i] as int - 0x80;
      i := i + 1;
    }
    ValidIs(tail, k, i);
  }

  lemma ValidIs(from: seq<octet>, k: nat, i: nat)
    requires i <= k && i <= |from| && forall j :: 0 <= j < i ==> !InvalidContinuing(from[j])
    requires i == k || i == |from| || InvalidContinuing(from[i])
    ensures ValidContinuing(from, k) == i
  {
  }

  lemma {:induction false} ValueMore(v: nat, octets: seq<octet>, i: nat)
    requires i < |octets| && forall j :: 0 <= j <= i ==> !InvalidContinuing(octets[j])
    ensures Value(v, octets[..i + 1]) == Value(v, octets[..i]) * 64 + octets[i] as int - 0x80
    decreases i
  {
    if i > 0 {
      assert !InvalidContinuing(octets[0]);
      assert octets[..i + 1][1..] == octets[1..][..i] && octets[..i][1..] == octets[1..][..i - 1];
      ValueMore(v * 64 + octets[0] as int - 0x80, octets[1..], i - 1);
    }
  }
}
