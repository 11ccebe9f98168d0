/** Printing and parsing of addresses, from `IPAddress.cpp`. */
module IpAddress {
  import opened Bytes
  import opened Options

  type Group = g: int | 0 <= g < 0x1_0000

  // ----- numbers

  /** `%x` and `DEC`. */
  function DigitChar(d: nat): char
    requires d < 16
  {
    "0123456789abcdef"[d]
  }

  function Digits(n: nat, base: nat): (s: string)
    requires 2 <= base <= 16
    ensures s != []
  {
    if n < base then [DigitChar(n)] else Digits(n / base, base) + [DigitChar(n % base)]
  }

  /** What `fromString6` takes for a digit: any letter or digit, as `isalnum` does. */
  function DigitValue(c: char): (d: int)
    ensures -1 <= d < 36
  {
    if '0' <= c <= '9' then c as int - '0' as int else
    if 'a' <= c <= 'z' then c as int - 'a' as int + 10 else
    if 'A' <= c <= 'Z' then c as int - 'A' as int + 10 else -1
  }

  lemma DigitRoundTrip(d: nat)
    requires d < 16
    ensures DigitValue(DigitChar(d)) == d && (d < 10 ==> '0' <= DigitChar(d) <= '9')
    ensures DigitChar(d) != ':' && DigitChar(d) != '.'
  {
  }

  // ----- IPv4

  /** `printTo` for an IPv4 address, from octet `i` on. */
  function Print4From(a: seq<byte>, i: nat): string
    requires |a| == 4 && i < 4
    decreases 4 - i
  {
    Digits(a[i], 10) + if i == 3 then [] else "." + Print4From(a, i + 1)
  }

  predicate IsSet4(a: seq<byte>) {
    a != [0, 0, 0, 0] && a != [255, 255, 255, 255]
  }

  function Print4(a: seq<byte>): string
    requires |a| == 4
  {
    if IsSet4(a) then Print4From(a, 0) else "(IP unset)"
  }

  /** `fromString4`: the octets behind the dots so far, and the number being read. */
  function Scan4(s: string, octets: seq<byte>, acc: byte): Option<seq<byte>>
    requires |octets| <= 3
    decreases |s|
  {
    if s == [] then (if |octets| == 3 then Some(octets + [acc]) else None) else
    var c := s[0];
    if '0' <= c <= '9' then
      var acc' := acc * 10 + (c as int - '0' as int);
      if acc' > 255 then None else Scan4(s[1..], octets, acc')
    else if c == '.' then
      if |octets| == 3 then None else Scan4(s[1..], octets + [acc], 0)
    else None
  }

  lemma Scan4One(d: nat, rest: string, octets: seq<byte>, acc: byte)
    requires d < 10 && acc * 10 + d < 256 && |octets| <= 3
    ensures Scan4([DigitChar(d)] + rest, octets, acc) == Scan4(rest, octets, acc * 10 + d)
  {
    DigitRoundTrip(d);
    var s := [DigitChar(d)] + rest;
    assert s[0] == DigitChar(d) && s[1..] == rest;
  }

  lemma DigitsStep(n: nat, base: nat, rest: string)
    requires 2 <= base <= 16 && n >= base
    ensures Digits(n, base) + rest == Digits(n / base, base) + ([DigitChar(n % base)] + rest)
  {
    hide DigitChar;
  }

  lemma {:induction false} Scan4Digits(n: nat, rest: string, octets: seq<byte>)
    requires n < 256 && |octets| <= 3
    ensures Scan4(Digits(n, 10) + rest, octets, 0) == Scan4(rest, octets, n)
    decreases n
  {
    hide Scan4;
    if n < 10 {
      Scan4One(n, rest, octets, 0);
    } else {
      DigitsStep(n, 10, rest);
      Scan4Digits(n / 10, [DigitChar(n % 10)] + rest, octets);
      Scan4One(n % 10, rest, octets, n / 10);
    }
  }

  lemma {:induction false} Scan4Printed(a: seq<byte>, i: nat)
    requires |a| == 4 && i < 4
    ensures Scan4(Print4From(a, i), a[..i], 0) == Some(a)
    decreases 4 - i
  {
    var rest := if i == 3 then [] else "." + Print4From(a, i + 1);
    Scan4Digits(a[i], rest, a[..i]);
    if i == 3 {
      assert a[..3] + [a[3]] == a;
    } else {
      assert rest[0] == '.' && rest[1..] == Print4From(a, i + 1);
      assert a[..i] + [a[i]] == a[..i + 1];
      Scan4Printed(a, i + 1);
    }
  }

  /** Every IPv4 address that is set is read back as it was printed. */
  lemma RoundTrip4(a: seq<byte>)
    requires |a| == 4 && IsSet4(a)
    ensures Scan4(Print4(a), [], 0) == Some(a)
  {
    Scan4Printed(a, 0);
    assert a[..0] == [];
  }

  // ----- IPv6

  /**
    `printTo` for an IPv6 address, from group `i` on; `count0` counts hidden zeros, and is -8 when no more are hidden.
  */
  function Print6From(g: seq<Group>, i: nat, count0: int): string
    requires |g| == 8 && i <= 8
    decreases 8 - i
  {
    if i == 8 then [] else
    var shown := g[i] != 0 || count0 < 0;
    var count1 := if !shown then count0 + 1 else if count0 > 0 then -8 else count0;
    (if shown then Digits(g[i], 16) else [])
    + (if (i != 7 && count1 < 2) || count1 == 7 then ":" else [])
    + Print6From(g, i + 1, count1)
  }

  predicate IsSet6(g: seq<Group>) {
    exists i :: 0 <= i < |g| && g[i] != 0
  }

  function Print6(g: seq<Group>): string
    requires |g| == 8
  {
    Print6From(g, 0, 0)
  }

  /** `fromString6` midway: the groups stored, the number being read, and where `::` was (-1: nowhere). */
  datatype Parse = Parse(stored: seq<Group>, acc: Group, mark: int)

  predicate Midway(p: Parse) {
    |p.stored| <= 7 && -1 <= p.mark <= |p.stored|
  }

  function Scan6(s: string, p: Parse): (r: Option<Parse>)
    requires Midway(p)
    ensures r.Some? ==> Midway(r.value)
    decreases |s|
  {
    if s == [] then Some(p) else
    if DigitValue(s[0]) >= 0 then
      var acc := p.acc * 16 + DigitValue(s[0]);
      if acc > 0xffff then None else Scan6(s[1..], p.(acc := acc))
    else if s[0] == ':' then
      var double := |s| > 1 && s[1] == ':';
      if (double && p.mark >= 0) || |p.stored| == 7 then None else
      var mark := if double then |p.stored| + (if p.acc != 0 then 1 else 0) else p.mark;
      Scan6(if double then s[2..] else s[1..], Parse(p.stored + [p.acc], 0, mark))
    else None
  }

  function Zeros(n: nat): (z: seq<Group>)
    ensures |z| == n && forall i :: 0 <= i < n ==> z[i] == 0
  {
    seq(n, _ => 0)
  }

  /** The end of `fromString6`: the groups behind `::` move to the end. */
  function Expand(p: Parse): Option<seq<Group>>
    requires Midway(p)
  {
    var all := p.stored + [p.acc];
    if p.mark == -1 then (if |all| == 8 then Some(all) else None)
    else Some(all[..p.mark] + Zeros(8 - |all|) + all[p.mark..])
  }

  function Parse6(s: string): Option<seq<Group>> {
    var r := Scan6(s, Parse([], 0, -1));
    if r == None then None else Expand(r.value)
  }

  // ----- what the parser does with what the printer writes

  lemma Scan6Digit(s: string, p: Parse)
    requires Midway(p) && s != [] && DigitValue(s[0]) >= 0 && p.acc * 16 + DigitValue(s[0]) < 0x1_0000
    ensures Scan6(s, p) == Scan6(s[1..], p.(acc := p.acc * 16 + DigitValue(s[0])))
  {
    hide DigitValue;
  }

  lemma Scan6One(d: nat, rest: string, p: Parse)
    requires d < 16 && Midway(p) && p.acc * 16 + d < 0x1_0000
    ensures Scan6([DigitChar(d)] + rest, p) == Scan6(rest, p.(acc := p.acc * 16 + d))
  {
    hide DigitValue;
    hide DigitChar;
    hide Scan6;
    DigitRoundTrip(d);
    var s := [DigitChar(d)] + rest;
    assert s[0] == DigitChar(d) && s[1..] == rest;
    Scan6Digit(s, p);
  }

  lemma {:induction false} Scan6Digits(n: nat, rest: string, p: Parse)
    requires n < 0x1_0000 && Midway(p) && p.acc == 0
    ensures Scan6(Digits(n, 16) + rest, p) == Scan6(rest, p.(acc := n))
    decreases n
  {
    hide Scan6;
    if n < 16 {
      Scan6One(n, rest, p);
    } else {
      DigitsStep(n, 16, rest);
      Scan6Digits(n / 16, [DigitChar(n % 16)] + rest, p);
      Scan6One(n % 16, rest, p.(acc := n / 16));
    }
  }

  lemma Scan6Colon(rest: string, p: Parse)
    requires Midway(p) && |p.stored| < 7 && (rest == [] || rest[0] != ':')
    ensures Scan6(":" + rest, p) == Scan6(rest, Parse(p.stored + [p.acc], 0, p.mark))
  {
    var s := ":" + rest;
    assert s[1..] == rest;
  }

  lemma Scan6Double(rest: string, p: Parse)
    requires Midway(p) && |p.stored| < 7 && p.mark == -1
    ensures Scan6("::" + rest, p) == Scan6(rest, Parse(p.stored + [p.acc], 0, |p.stored| + if p.acc != 0 then 1 else 0))
  {
    var s := "::" + rest;
    assert s[2..] == rest && s[1] == ':';
  }

  lemma {:induction false} DigitsNoColon(n: nat)
    ensures Digits(n, 16)[0] != ':'
    decreases n
  {
    DigitRoundTrip(n % 16);
    if n >= 16 {
      DigitsNoColon(n / 16);
    }
  }

  /** Groups with colons between them. */
  function Plain(g: seq<Group>): (s: string)
    requires g != []
    ensures s != []
  {
    if |g| == 1 then Digits(g[0], 16) else Digits(g[0], 16) + ":" + Plain(g[1..])
  }

  /** Groups with a colon behind each. */
  function Heads(g: seq<Group>): string {
    if g == [] then [] else Digits(g[0], 16) + ":" + Heads(g[1..])
  }

  lemma HeadsFirst(g: seq<Group>, rest: string)
    requires g != []
    ensures Heads(g) + rest == Digits(g[0], 16) + (":" + (Heads(g[1..]) + rest))
  {
    hide Digits;
  }

  lemma NoHeads(rest: string)
    ensures Heads([]) + rest == rest
  {
  }

  lemma PlainNoColon(g: seq<Group>)
    requires g != []
    ensures Plain(g)[0] != ':'
  {
    DigitsNoColon(g[0]);
  }

  lemma {:induction false} Scan6Plain(g: seq<Group>, p: Parse)
    requires g != [] && Midway(p) && p.acc == 0 && |p.stored| + |g| <= 8
    ensures Scan6(Plain(g), p) == Some(Parse(p.stored + g[..|g| - 1], g[|g| - 1], p.mark))
    decreases |g|
  {
    hide Digits;
    if |g| == 1 {
      Scan6Digits(g[0], [], p);
      assert Digits(g[0], 16) + [] == Digits(g[0], 16);
      assert g[..0] == [] && p.stored + [] == p.stored;
    } else {
      var rest := Plain(g[1..]);
      assert Plain(g) == Digits(g[0], 16) + (":" + rest);
      Scan6Digits(g[0], ":" + rest, p);
      PlainNoColon(g[1..]);
      Scan6Colon(rest, p.(acc := g[0]));
      Scan6Plain(g[1..], Parse(p.stored + [g[0]], 0, p.mark));
      assert p.stored + [g[0]] + g[1..][..|g| - 2] == p.stored + g[..|g| - 1];
    }
  }

  lemma {:induction false} Scan6Heads(g: seq<Group>, rest: string, p: Parse)
    requires Midway(p) && p.acc == 0 && |p.stored| + |g| <= 7 && (rest == [] || rest[0] != ':')
    ensures Scan6(Heads(g) + rest, p) == Scan6(rest, Parse(p.stored + g, 0, p.mark))
    decreases |g|
  {
    hide Digits;
    hide Heads;
    hide Scan6;
    if g == [] {
      NoHeads(rest);
      assert p.stored + g == p.stored;
    } else {
      var more := Heads(g[1..]) + rest;
      HeadsFirst(g, rest);
      Scan6Digits(g[0], ":" + more, p);
      HeadsNoColon(g[1..], rest);
      Scan6Colon(more, p.(acc := g[0]));
      Scan6Heads(g[1..], rest, Parse(p.stored + [g[0]], 0, p.mark));
      assert p.stored + [g[0]] + g[1..] == p.stored + g;
    }
  }

  lemma HeadsNoColon(g: seq<Group>, rest: string)
    requires rest == [] || rest[0] != ':'
    ensures Heads(g) + rest == [] || (Heads(g) + rest)[0] != ':'
  {
    hide Digits;
    if g != [] {
      DigitsNoColon(g[0]);
    }
  }

  // ----- the shape of what the printer writes

  lemma {:induction false} PrintPlain(g: seq<Group>, i: nat)
    requires |g| == 8 && i < 8
    ensures Print6From(g, i, -8) == Plain(g[i..])
    decreases 8 - i
  {
    hide Digits;
    if i < 7 {
      PrintPlain(g, i + 1);
      assert g[i..][1..] == g[i + 1..] && g[i..][0] == g[i];
    } else {
      assert Print6From(g, 8, -8) == [];
      assert g[7..][0] == g[7];
    }
  }

  lemma {:induction false} PrintHeads(g: seq<Group>, i: nat, k: nat)
    requires |g| == 8 && i <= k < 8 && forall j :: i <= j < k ==> g[j] != 0
    ensures Print6From(g, i, 0) == Heads(g[i..k]) + Print6From(g, k, 0)
    decreases k - i
  {
    hide Digits;
    if i < k {
      PrintHeads(g, i + 1, k);
      var rest := Print6From(g, k, 0);
      assert g[i..k][1..] == g[i + 1..k] && g[i..k][0] == g[i];
      assert Digits(g[i], 16) + ":" + (Heads(g[i + 1..k]) + rest) ==
             (Digits(g[i], 16) + ":" + Heads(g[i + 1..k])) + rest;
    } else {
      assert g[i..k] == [];
    }
  }

  lemma PrintZero(g: seq<Group>, i: nat, c: nat)
    requires |g| == 8 && i < 8 && g[i] == 0
    ensures Print6From(g, i, c) == (if (i != 7 && c == 0) || c == 6 then ":" else []) + Print6From(g, i + 1, c + 1)
  {
    hide Digits;
  }

  lemma PrintNonZero(g: seq<Group>, e: nat, c: nat)
    requires |g| == 8 && e < 8 && g[e] != 0 && c > 0
    ensures Print6From(g, e, c) == Plain(g[e..])
  {
    PrintPlain(g, e);
    assert Print6From(g, e, c) == Print6From(g, e, -8);
  }

  /** `c` zeros are hidden before group `i`, and the zeros go on up to `e`. */
  lemma {:induction false} PrintZeros(g: seq<Group>, i: nat, c: nat, e: nat)
    requires |g| == 8 && 1 <= c && i <= e <= 8 && (forall j :: i <= j < e ==> g[j] == 0) && (e < 8 ==> g[e] != 0)
    ensures Print6From(g, i, c) == (if c < 7 <= c + (e - i) then ":" else []) + if e < 8 then Plain(g[e..]) else []
    decreases e - i
  {
    hide Print6From;
    hide Plain;
    var rest := if e < 8 then Plain(g[e..]) else [];
    assert [] + (":" + rest) == ":" + rest && [] + rest == rest;
    if i < e {
      PrintZero(g, i, c);
      PrintZeros(g, i + 1, c + 1, e);
    } else if e < 8 {
      PrintNonZero(g, e, c);
    } else {
      PrintEnd(g, c);
    }
  }

  lemma PrintEnd(g: seq<Group>, c: int)
    requires |g| == 8
    ensures Print6From(g, 8, c) == []
  {
  }

  /** The zeros from `k` up to `e`, and what follows. */
  lemma PrintRun(g: seq<Group>, k: nat, e: nat)
    requires |g| == 8 && k < 7 && k < e <= 8 && (forall j :: k <= j < e ==> g[j] == 0) && (e < 8 ==> g[e] != 0)
    ensures Print6From(g, k, 0) == ":" + ((if e - k >= 7 then ":" else []) + if e < 8 then Plain(g[e..]) else [])
  {
    hide Print6From;
    hide Plain;
    PrintZero(g, k, 0);
    PrintZeros(g, k + 1, 1, e);
  }

  /** The end of the zeros from `k` on. */
  function EndOfZeros(g: seq<Group>, k: nat): (e: nat)
    requires k <= |g|
    ensures k <= e <= |g| && (forall j :: k <= j < e ==> g[j] == 0) && (e < |g| ==> g[e] != 0)
    decreases |g| - k
  {
    if k == |g| || g[k] != 0 then k else EndOfZeros(g, k + 1)
  }

  /** The first of the groups from `k` to 6 that is zero, or 7. */
  function FirstZero(g: seq<Group>, k: nat): (z: nat)
    requires |g| == 8 && k <= 7
    ensures k <= z <= 7 && (forall j :: k <= j < z ==> g[j] != 0) && (z < 7 ==> g[z] == 0)
    decreases 7 - k
  {
    if k == 7 || g[k] == 0 then k else FirstZero(g, k + 1)
  }

  // ----- round trip

  lemma NoZeroBeforeLast(g: seq<Group>)
    requires |g| == 8 && FirstZero(g, 0) == 7
    ensures Parse6(Print6(g)) == Some(g)
  {
    hide Print6From;
    hide Print6;
    hide Scan6;
    hide Expand;
    hide Heads;
    hide Digits;
    LastGroup(g);
    ScanLast(g, Print6From(g, 7, 0));
    PrintHeads(g, 0, 7);
    assert g[0..7] == g[..7];
    DigitsNoColon(g[7]);
    Scan6Heads(g[..7], Print6From(g, 7, 0), Parse([], 0, -1));
    assert [] + g[..7] == g[..7];
  }

  lemma LastGroup(g: seq<Group>)
    requires |g| == 8
    ensures Print6(g) == Print6From(g, 0, 0)
    ensures Print6From(g, 7, 0) == if g[7] != 0 then Digits(g[7], 16) else []
  {
    hide Digits;
    assert Print6From(g, 8, 0) == [] && Print6From(g, 8, 1) == [];
  }

  lemma Scan6Nothing(p: Parse)
    requires Midway(p)
    ensures Scan6([], p) == Some(p)
  {
  }

  lemma ScanLast(g: seq<Group>, text: string)
    requires |g| == 8 && text == if g[7] != 0 then Digits(g[7], 16) else []
    ensures var r := Scan6(text, Parse(g[..7], 0, -1)); r.Some? && Expand(r.value) == Some(g)
  {
    hide Digits;
    hide Scan6;
    Scan6Digits(g[7], [], Parse(g[..7], 0, -1));
    Scan6Nothing(Parse(g[..7], g[7], -1));
    assert Digits(g[7], 16) + [] == Digits(g[7], 16);
    assert g[..7] + [g[7]] == g;
  }

  lemma {:induction false} HeadsLast(g: seq<Group>, tail: string)
    requires g != []
    ensures Heads(g) + tail == Heads(g[..|g| - 1]) + (Digits(g[|g| - 1], 16) + (":" + tail))
    decreases |g|
  {
    hide Digits;
    hide Heads;
    var n := |g| - 1;
    HeadsFirst(g, tail);
    if n > 0 {
      var last := Digits(g[n], 16) + (":" + tail);
      HeadsFirst(g[..n], last);
      HeadsLast(g[1..], tail);
      assert g[1..][..n - 1] == g[..n][1..];
    } else {
      assert g[1..] == [] && g[..0] == [];
      NoHeads(tail);
      NoHeads(Digits(g[n], 16) + (":" + tail));
    }
  }

  /** Non-zero groups, `::`, and a tail. */
  lemma ScanToDouble(g: seq<Group>, k: nat, tail: string)
    requires |g| == 8 && 1 <= k <= 6 && g[k - 1] != 0
    ensures Scan6(Heads(g[..k]) + (":" + tail), Parse([], 0, -1)) == Scan6(tail, Parse(g[..k], 0, k))
  {
    hide Digits;
    hide Scan6;
    hide Heads;
    var p := Parse([], 0, -1);
    HeadsLast(g[..k], ":" + tail);
    assert g[..k][..k - 1] == g[..k - 1];
    var more := Digits(g[k - 1], 16) + (":" + (":" + tail));
    DigitsNoColon(g[k - 1]);
    Scan6Heads(g[..k - 1], more, p);
    assert [] + g[..k - 1] == g[..k - 1];
    var q := Parse(g[..k - 1], 0, -1);
    Scan6Digits(g[k - 1], ":" + (":" + tail), q);
    assert ":" + (":" + tail) == "::" + tail;
    Scan6Double(tail, q.(acc := g[k - 1]));
    assert g[..k - 1] + [g[k - 1]] == g[..k];
  }

  lemma ExpandMiddle(g: seq<Group>, k: nat, e: nat)
    requires |g| == 8 && k <= e < 8 && 1 <= k && (forall j :: k <= j < e ==> g[j] == 0)
    ensures Expand(Parse(g[..k] + g[e..7], g[7], k)) == Some(g)
  {
    var all := g[..k] + g[e..7] + [g[7]];
    assert all == g[..k] + g[e..];
    assert g[..k] + Zeros(e - k) + g[e..] == g;
  }

  /** The text behind the `::` of zeros from `k` to `e`. */
  function AfterZeros(g: seq<Group>, k: nat, e: nat): string
    requires k <= e <= |g| == 8
  {
    (if e - k >= 7 then ":" else []) + if e < 8 then Plain(g[e..]) else []
  }

  lemma MiddleText(g: seq<Group>, k: nat)
    requires |g| == 8 && FirstZero(g, 0) == k < 7
    ensures Print6(g) == Heads(g[..k]) + (":" + AfterZeros(g, k, EndOfZeros(g, k)))
  {
    hide Print6From;
    hide Plain;
    hide Heads;
    PrintHeads(g, 0, k);
    assert g[0..k] == g[..k];
    PrintRun(g, k, EndOfZeros(g, k));
  }

  lemma ScanAfterZeros(g: seq<Group>, k: nat, e: nat)
    requires |g| == 8 && 1 <= k <= 6 && k < e <= 8 && (forall j :: k <= j < e ==> g[j] == 0)
    ensures var r := Scan6(AfterZeros(g, k, e), Parse(g[..k], 0, k)); r.Some? && Expand(r.value) == Some(g)
  {
    hide Scan6;
    hide Expand;
    hide Plain;
    if e < 8 {
      assert [] + Plain(g[e..]) == Plain(g[e..]);
      Scan6Plain(g[e..], Parse(g[..k], 0, k));
      assert g[e..][..8 - e - 1] == g[e..7];
      ExpandMiddle(g, k, e);
    } else {
      ZerosAtTheEnd(g, k, if 8 - k >= 7 then ":" else []);
    }
  }

  lemma ZerosInTheMiddle(g: seq<Group>, k: nat)
    requires |g| == 8 && FirstZero(g, 0) == k && 1 <= k <= 6
    ensures Parse6(Print6(g)) == Some(g)
  {
    hide Print6;
    hide Scan6;
    hide Expand;
    hide Heads;
    hide AfterZeros;
    var e := EndOfZeros(g, k);
    MiddleText(g, k);
    ScanToDouble(g, k, AfterZeros(g, k, e));
    ScanAfterZeros(g, k, e);
  }

  lemma ZerosAtTheEnd(g: seq<Group>, k: nat, colon: string)
    requires |g| == 8 && 1 <= k <= 6 && (forall j :: k <= j < 8 ==> g[j] == 0)
    requires colon == if 8 - k >= 7 then ":" else []
    ensures var r := Scan6(colon + [], Parse(g[..k], 0, k)); r.Some? && Expand(r.value) == Some(g)
  {
    var p := Parse(g[..k], 0, k);
    if k == 1 {
      Scan6Colon([], p);
      assert ":" + [] == colon + [];
      assert g == g[..1] + Zeros(5) + [0, 0];
      assert (g[..1] + [0] + [0])[..1] == g[..1] && (g[..1] + [0] + [0])[1..] == [0, 0];
    } else {
      assert g == g[..k] + Zeros(7 - k) + [0];
      assert (g[..k] + [0])[..k] == g[..k] && (g[..k] + [0])[k..] == [0];
    }
  }

  lemma LeadingText(g: seq<Group>, e: nat)
    requires |g| == 8 && EndOfZeros(g, 0) == e && 1 <= e <= 7
    ensures Print6(g) == if e == 7 then "::" + Plain(g[7..]) else ":" + Plain(g[e..])
  {
    hide Print6From;
    hide Plain;
    PrintRun(g, 0, e);
    var rest := Plain(g[e..]);
    assert ":" + (":" + rest) == "::" + rest && [] + rest == rest;
  }

  lemma SevenZeros(g: seq<Group>)
    requires |g| == 8 && EndOfZeros(g, 0) == 7
    ensures Parse6(Print6(g)) == Some(g)
  {
    hide Print6;
    hide Scan6;
    hide Plain;
    LeadingText(g, 7);
    Scan6Double(Plain(g[7..]), Parse([], 0, -1));
    Scan6Plain(g[7..], Parse([0], 0, 0));
    assert [] + [0] == [0] && [0] + g[7..][..0] == [0];
    ExpandSeven(g);
  }

  lemma ExpandSeven(g: seq<Group>)
    requires |g| == 8 && forall j :: 0 <= j < 7 ==> g[j] == 0
    ensures Expand(Parse([0], g[7], 0)) == Some(g)
  {
    var all := [0] + [g[7]];
    assert all[..0] == [] && all[0..] == all;
    assert g == [] + Zeros(6) + all;
  }

  /** Leading zeros are read back if there is one, or seven. */
  lemma LeadingZeros(g: seq<Group>, e: nat)
    requires |g| == 8 && EndOfZeros(g, 0) == e && 1 <= e <= 6
    ensures Parse6(Print6(g)) == if e == 1 then Some(g) else None
  {
    hide Print6;
    hide Scan6;
    hide Plain;
    hide Expand;
    LeadingText(g, e);
    PlainNoColon(g[e..]);
    Scan6Colon(Plain(g[e..]), Parse([], 0, -1));
    assert [] + [0] == [0];
    Scan6Plain(g[e..], Parse([0], 0, -1));
    assert g[e..][..8 - e - 1] == g[e..7];
    ExpandLeading(g, e);
  }

  lemma ExpandLeading(g: seq<Group>, e: nat)
    requires |g| == 8 && 1 <= e <= 7 && g[0] == 0
    ensures Expand(Parse([0] + g[e..7], g[7], -1)) == if e == 1 then Some(g) else None
  {
    assert e == 1 ==> [0] + g[1..7] + [g[7]] == g;
  }

  lemma {:induction false} Scan4RejectsColon(s: string, octets: seq<byte>, acc: byte)
    requires |octets| <= 3 && ':' in s
    ensures Scan4(s, octets, acc) == None
    decreases |s|
  {
    var c := s[0];
    if c != ':' {
      assert ':' in s[1..];
      if '0' <= c <= '9' {
        var acc' := acc * 10 + (c as int - '0' as int);
        if acc' <= 255 {
          Scan4RejectsColon(s[1..], octets, acc');
        }
      } else if c == '.' && |octets| < 3 {
        Scan4RejectsColon(s[1..], octets + [acc], 0);
      }
    }
  }

  /** `fromString`: an IPv4 address if it is one, else an IPv6 address. */
  datatype Address = V4(octets: seq<byte>) | V6(groups: seq<Group>)

  function FromString(s: string): Option<Address> {
    var four := Scan4(s, [], 0);
    if four.Some? then Some(V4(four.value)) else
    var six := Parse6(s);
    if six.Some? then Some(V6(six.value)) else None
  }

  lemma Print6HasColon(g: seq<Group>)
    requires |g| == 8
    ensures ':' in Print6(g)
  {
    var shown := if g[0] != 0 then Digits(g[0], 16) else [];
    var c := if g[0] != 0 then 0 else 1;
    assert Print6(g) == shown + ":" + Print6From(g, 1, c);
  }

  /** Every set IPv4 address, printed, is read back. */
  lemma PrintThenParse4(a: seq<byte>)
    requires |a| == 4 && IsSet4(a)
    ensures FromString(Print4(a)) == Some(V4(a))
  {
    RoundTrip4(a);
  }

  /**
    An IPv6 address that is set, printed, is read back exactly when it does not start with two to six zero groups and
    then a group that is not zero: those are printed with one colon in front and rejected.
  */
  lemma PrintThenParse6Exactly(g: seq<Group>)
    requires |g| == 8 && IsSet6(g)
    ensures FromString(Print6(g)) == Some(V6(g)) <==> !(g[0] == 0 && g[1] == 0 && IsSet6(g[2..7]))
  {
    Print6HasColon(g);
    Scan4RejectsColon(Print6(g), [], 0);
    hide Print6;
    hide Parse6;
    hide Scan4;
    var k := FirstZero(g, 0);
    if k == 7 {
      NoZeroBeforeLast(g);
    } else if k >= 1 {
      ZerosInTheMiddle(g, k);
    } else {
      var e := EndOfZeros(g, 0);
      if e == 7 {
        SevenZeros(g);
      } else {
        LeadingZeros(g, e);
      }
      MiddleIsSet(g, e);
    }
  }

  lemma MiddleIsSet(g: seq<Group>, e: nat)
    requires |g| == 8 && EndOfZeros(g, 0) == e && 1 <= e <= 7
    ensures g[0] == 0 && g[1] == 0 && IsSet6(g[2..7]) <==> 2 <= e <= 6
  {
    if 2 <= e <= 6 {
      assert g[2..7][e - 2] == g[e];
    } else if e == 7 {
      assert forall j :: 0 <= j < 5 ==> g[2..7][j] == g[2 + j];
    }
  }

  // ----- the form of the text

  /** Groups with colons between them, or nothing. */
  function Groups(g: seq<Group>): string {
    if g == [] then [] else Plain(g)
  }

  /** The short form of section 2.2 of RFC 4291: the groups from `k` to `e`, zeros all of them, are written as `::`. */
  ghost predicate IsShort(g: seq<Group>, s: string, k: nat, e: nat) {
    && k < e <= |g| && (forall j :: k <= j < e ==> g[j] == 0)
    && s == Groups(g[..k]) + "::" + Groups(g[e..])
  }

  /** The two forms of section 2.2 of RFC 4291: all groups, or one run of zeros left out. */
  ghost predicate IsStandard(g: seq<Group>, s: string) {
    (g != [] && s == Plain(g)) || exists k, e :: IsShort(g, s, k, e)
  }

  /** One to six leading zero groups, the last group the only zero, or the first the only one that is not. */
  predicate Misprinted(g: seq<Group>)
    requires |g| == 8
  {
    || 1 <= EndOfZeros(g, 0) <= 6
    || (g[7] == 0 && forall i :: 0 <= i < 7 ==> g[i] != 0)
    || (g[0] != 0 && forall i :: 1 <= i < 8 ==> g[i] == 0)
  }

  lemma DigitsEnd(n: nat)
    ensures var s := Digits(n, 16); s[|s| - 1] != ':' && s[0] != ':'
  {
    DigitRoundTrip(n % 16);
    DigitsNoColon(n);
  }

  lemma {:induction false} PlainEnds(g: seq<Group>)
    requires g != []
    ensures var s := Plain(g); s[|s| - 1] != ':' && s[0] != ':'
    decreases |g|
  {
    hide Digits;
    DigitsEnd(g[0]);
    if |g| > 1 {
      PlainEnds(g[1..]);
    }
  }

  lemma {:induction false} HeadsArePlain(g: seq<Group>)
    requires g != []
    ensures Heads(g) == Plain(g) + ":"
    decreases |g|
  {
    hide Digits;
    if |g| > 1 {
      HeadsArePlain(g[1..]);
    } else {
      assert Heads(g[1..]) == [];
    }
  }

  lemma {:induction false} HeadsAndLast(g: seq<Group>)
    requires g != []
    ensures Heads(g[..|g| - 1]) + Digits(g[|g| - 1], 16) == Plain(g)
    decreases |g|
  {
    hide Digits;
    var n := |g| - 1;
    if n > 0 {
      HeadsAndLast(g[1..]);
      assert g[1..][..n - 1] == g[..n][1..];
      var front := Digits(g[0], 16) + ":";
      assert Heads(g[..n]) == front + Heads(g[1..][..n - 1]);
    } else {
      assert Heads(g[..0]) == [];
    }
  }

  /** The text of every address, but for the part behind one run of zeros. */
  lemma TextOf(g: seq<Group>)
    requires |g| == 8
    ensures var k := FirstZero(g, 0); var e := EndOfZeros(g, k);
            && (k == 7 && g[7] != 0 ==> Print6(g) == Plain(g))
            && (k == 7 && g[7] == 0 ==> Print6(g) == Plain(g[..7]) + ":")
            && (1 <= k < 7 ==> Print6(g) == Plain(g[..k]) + "::" + AfterZeros(g, k, e))
  {
    hide Digits;
    hide Print6From;
    hide Plain;
    hide Heads;
    hide AfterZeros;
    var k := FirstZero(g, 0);
    if k == 7 {
      PrintHeads(g, 0, 7);
      LastGroup(g);
      assert g[0..7] == g[..7];
      HeadsAndLast(g);
      HeadsArePlain(g[..7]);
      assert Heads(g[..7]) + [] == Heads(g[..7]);
    } else if k > 0 {
      MiddleText(g, k);
      HeadsArePlain(g[..k]);
      var rest := AfterZeros(g, k, EndOfZeros(g, k));
      assert Plain(g[..k]) + ":" + (":" + rest) == Plain(g[..k]) + "::" + rest;
    }
  }

  lemma StandardText(g: seq<Group>)
    requires |g| == 8 && IsSet6(g) && !Misprinted(g)
    ensures IsStandard(g, Print6(g))
  {
    hide Digits;
    hide Print6;
    hide Plain;
    TextOf(g);
    var k := FirstZero(g, 0);
    var e := EndOfZeros(g, k);
    if k == 0 {
      LeadingText(g, 7);
      assert [] + "::" + Plain(g[7..]) == "::" + Plain(g[7..]) && g[..0] == [];
      assert IsShort(g, Print6(g), 0, 7);
    } else if k < 7 {
      var rest := if e < 8 then Plain(g[e..]) else [];
      assert e - k < 7 && [] + rest == rest;
      assert g[8..] == [];
      assert IsShort(g, Print6(g), k, e);
    }
  }

  /** A text that ends or begins with a single colon, or has three in a row at its end, is in neither form. */
  lemma NotStandard(g: seq<Group>, s: string)
    requires |g| == 8 && |s| >= 4
    requires || (s[0] == ':' && s[1] != ':')
             || (s[|s| - 1] == ':' && s[|s| - 2] != ':')
             || (s[|s| - 1] == s[|s| - 2] == s[|s| - 3] == ':')
    ensures !IsStandard(g, s)
  {
    hide Plain;
    PlainEnds(g);
    forall k: nat, e: nat
      ensures !IsShort(g, s, k, e)
    {
      if IsShort(g, s, k, e) {
        NotShort(g, s, k, e);
      }
    }
  }

  lemma NotShort(g: seq<Group>, s: string, k: nat, e: nat)
    requires |g| == 8 && |s| >= 4 && IsShort(g, s, k, e)
    ensures s[0] == ':' ==> s[1] == ':'
    ensures s[|s| - 1] == ':' ==> s[|s| - 2] == ':' && s[|s| - 3] != ':'
  {
    hide Plain;
    var a, b := Groups(g[..k]), Groups(g[e..]);
    if k > 0 {
      PlainEnds(g[..k]);
    }
    if e < 8 {
      PlainEnds(g[e..]);
    }
    assert s == a + "::" + b;
    if b == [] {
      assert s[|s| - 2] == "::"[0] && s[|s| - 3] == a[|a| - 1];
    } else {
      assert s[|s| - 1] == b[|b| - 1];
    }
  }

  lemma MisprintedText(g: seq<Group>)
    requires |g| == 8 && Misprinted(g)
    ensures !IsStandard(g, Print6(g))
  {
    hide Digits;
    hide Print6;
    hide Plain;
    hide IsStandard;
    var s, k := Print6(g), FirstZero(g, 0);
    if 1 <= EndOfZeros(g, 0) <= 6 {
      var e := EndOfZeros(g, 0);
      LeadingText(g, e);
      PlainEnds(g[e..]);
      LongPlain(g[e..]);
    } else if g[7] == 0 && k == 7 {
      TextOf(g);
      PlainEnds(g[..7]);
      LongPlain(g[..7]);
    } else {
      assert k == 1 && EndOfZeros(g, 1) == 8;
      TextOf(g);
      assert s == Plain(g[..1]) + "::" + ":";
      PlainEnds(g[..1]);
    }
    NotStandard(g, s);
  }

  /** Two groups take at least three characters. */
  lemma LongPlain(g: seq<Group>)
    requires |g| >= 2
    ensures |Plain(g)| >= 3
  {
    hide Digits;
  }

  /**
    The text of an IPv6 address that is set has a form of section 2.2 of RFC 4291 if and only if it does not begin with
    one to six zero groups, its last group is not its only zero, and its first group is not the only one that is not
    zero.
  */
  lemma StandardTextExactly(g: seq<Group>)
    requires |g| == 8 && IsSet6(g)
    ensures IsStandard(g, Print6(g)) <==> !Misprinted(g)
  {
    hide IsStandard;
    hide Misprinted;
    if Misprinted(g) {
      MisprintedText(g);
    } else {
      StandardText(g);
    }
  }

  // ----- the class

  /** What `printTo` writes for an address. */
  function Text(a: Address): string
    requires if a.V4? then |a.octets| == 4 else |a.groups| == 8
  {
    match a
    case V4(octets) => Print4(octets)
    case V6(groups) => if IsSet6(groups) then Print6(groups) else "(IP unset)"
  }

  class IPAddress {
    var isV6: bool
    var octets: seq<byte>
    var groups: seq<Group>

    ghost predicate Valid()
      reads this
    {
      |octets| == 4 && |groups| == 8
    }

    ghost function Value(): Address
      reads this
    {
      if isV6 then V6(groups) else V4(octets)
    }

    constructor ()
      ensures Valid() && Value() == V4([0, 0, 0, 0])
    {
      isV6, octets, groups := false, [0, 0, 0, 0], Zeros(8);
    }

    /** `fromString4`; octets are overwritten even where it fails. */
    method FromString4(address: string) returns (ok: bool)
      requires Valid()
      modifies `octets, `isV6
      ensures Valid() && ok == Scan4(address, [], 0).Some?
      ensures if ok then Value() == V4(Scan4(address, [], 0).value) else isV6 == old(isV6)
    {
      var acc: byte, dots, i := 0, 0, 0;
      assert address[0..] == address && octets[..0] == [];
      while i < |address|
        invariant 0 <= i <= |address| && 0 <= dots <= 3 && |octets| == 4
        invariant isV6 == old(isV6) && Scan4(address, [], 0) == Scan4(address[i..], octets[..dots], acc)
      {
        var c := address[i];
        assert address[i..][0] == c && address[i..][1..] == address[i + 1..];
        i := i + 1;
        if '0' <= c <= '9' {
          var next := acc * 10 + (c as int - '0' as int);
          if next > 255 {
            return false;
          }
          acc := next;
        } else if c == '.' {
          if dots == 3 {
            return false;
          }
          octets := octets[dots := acc];
          assert octets[..dots + 1] == octets[..dots] + [acc];
          dots := dots + 1;
          acc := 0;
        } else {
          return false;
        }
      }
      if dots != 3 {
        return false;
      }
      octets := octets[3 := acc];
      assert octets == octets[..3] + [acc];
      isV6 := false;
      return true;
    }

    /** The groups behind `::` move to the end, last first, and zeros fill the gap. */
    method MoveToEnd(dots: nat, doubledots: nat)
      requires |groups| == 8 && doubledots <= dots <= 8
      modifies `groups
      ensures groups == old(groups)[..doubledots] + Zeros(8 - dots) + old(groups)[doubledots..dots]
    {
      hide Zeros;
      var i, gap := dots - doubledots, 8 - dots;
      ghost var before := groups;
      while i > 0
        invariant 0 <= i <= dots - doubledots && |groups| == 8
        invariant forall j :: 0 <= j < gap + doubledots + i ==> groups[j] == before[j]
        invariant forall j :: gap + doubledots + i <= j < 8 ==> groups[j] == before[j - gap]
      {
        i := i - 1;
        groups := groups[gap + doubledots + i := groups[doubledots + i]];
      }
      i := doubledots;
      while i < gap + doubledots
        invariant doubledots <= i <= gap + doubledots && |groups| == 8
        invariant forall j :: 0 <= j < doubledots ==> groups[j] == before[j]
        invariant forall j :: doubledots <= j < i ==> groups[j] == 0
        invariant forall j :: gap + doubledots <= j < 8 ==> groups[j] == before[j - gap]
      {
        groups := groups[i := 0];
        i := i + 1;
      }
      MovedIs(before, groups, dots, doubledots);
    }

    /** `fromString6`. */
    method FromString6(address: string) returns (ok: bool)
      requires Valid()
      modifies `groups, `isV6
      ensures Valid() && ok == Parse6(address).Some?
      ensures if ok then Value() == V6(Parse6(address).value) else isV6 == old(isV6)
    {
      hide DigitValue;
      var acc: Group, dots, doubledots, i := 0, 0, -1, 0;
      ghost var start := Parse([], 0, -1);
      assert address[0..] == address && groups[..0] == [];
      while i < |address|
        invariant 0 <= i <= |address| && 0 <= dots <= 7 && -1 <= doubledots <= dots && |groups| == 8
        invariant isV6 == old(isV6) &&
                  Scan6(address, start) == Scan6(address[i..], Parse(groups[..dots], acc, doubledots))
        decreases |address| - i
      {
        var c := address[i];
        var rest := address[i..];
        assert rest[0] == c && rest[1..] == address[i + 1..];
        i := i + 1;
        if DigitValue(c) >= 0 {
          var next := acc * 16 + DigitValue(c);
          if next > 0xffff {
            return false;
          }
          acc := next;
        } else if c == ':' {
          if i < |address| && address[i] == ':' {
            assert rest[1] == ':' && rest[2..] == address[i + 1..];
            if doubledots >= 0 {
              return false;
            }
            doubledots := dots + if acc != 0 then 1 else 0;
            i := i + 1;
          }
          if dots == 7 {
            return false;
          }
          groups := groups[dots := acc];
          assert groups[..dots + 1] == groups[..dots] + [acc];
          dots := dots + 1;
          acc := 0;
        } else {
          return false;
        }
      }
      ok := Finish6(dots, acc, doubledots);
    }

    /** What follows the loop of `fromString6`. */
    method Finish6(dots: nat, acc: Group, doubledots: int) returns (ok: bool)
      requires Valid() && dots <= 7 && -1 <= doubledots <= dots
      modifies `groups, `isV6
      ensures Valid() && ok == Expand(Parse(old(groups)[..dots], acc, doubledots)).Some?
      ensures if ok then Value() == V6(Expand(Parse(old(groups)[..dots], acc, doubledots)).value) else isV6 == old(isV6)
    {
      if doubledots == -1 && dots != 7 {
        return false;
      }
      groups := groups[dots := acc];
      ghost var all := groups[..dots + 1];
      assert all == old(groups)[..dots] + [acc];
      if doubledots != -1 {
        assert all[..doubledots] == groups[..doubledots] && all[doubledots..] == groups[doubledots..dots + 1];
        MoveToEnd(dots + 1, doubledots);
      } else {
        assert all == groups;
      }
      isV6 := true;
      return true;
    }

    /** `fromString`. */
    method FromAnyString(address: string) returns (ok: bool)
      requires Valid()
      modifies this
      ensures Valid() && ok == FromString(address).Some? && (ok ==> Value() == FromString(address).value)
    {
      hide Scan4;
      hide Parse6;
      ok := FromString4(address);
      if !ok {
        ok := FromString6(address);
      }
    }

    method PrintGroups() returns (text: string)
      requires Valid()
      ensures text == Print6(groups)
    {
      hide Digits;
      text := [];
      var count0 := 0;
      for i := 0 to 8
        invariant text + Print6From(groups, i, count0) == Print6(groups)
      {
        Print6Step(groups, i, count0, text);
        hide Print6From;
        hide Print6;
        var bit := groups[i];
        if bit != 0 || count0 < 0 {
          text := text + Digits(bit, 16);
          if count0 > 0 {
            count0 := -8;
          }
        } else {
          count0 := count0 + 1;
        }
        if (i != 7 && count0 < 2) || count0 == 7 {
          text := text + ":";
        }
      }
      assert Print6From(groups, 8, count0) == [];
    }

    method PrintOctets() returns (text: string)
      requires Valid()
      ensures text == Print4From(octets, 0)
    {
      hide Digits;
      hide Print4From;
      text := [];
      for i := 0 to 4
        invariant i < 4 ==> text + Print4From(octets, i) == Print4From(octets, 0)
        invariant i == 4 ==> text == Print4From(octets, 0)
      {
        Print4Step(octets, i, text);
        text := text + Digits(octets[i], 10);
        if i != 3 {
          text := text + ".";
        }
      }
    }

    /** `printTo`. */
    method PrintTo() returns (text: string)
      requires Valid()
      ensures text == Text(Value())
    {
      hide Print4From;
      hide Print6;
      if isV6 {
        if forall i :: 0 <= i < 8 ==> groups[i] == 0 {
          return "(IP unset)";
        }
        text := PrintGroups();
      } else if !IsSet4(octets) {
        return "(IP unset)";
      } else {
        text := PrintOctets();
      }
    }
  }

  lemma MovedIs(before: seq<Group>, now: seq<Group>, dots: nat, doubledots: nat)
    requires |before| == |now| == 8 && doubledots <= dots <= 8
    requires forall j :: 0 <= j < doubledots ==> now[j] == before[j]
    requires forall j :: doubledots <= j < 8 - dots + doubledots ==> now[j] == 0
    requires forall j :: 8 - dots + doubledots <= j < 8 ==> now[j] == before[j - (8 - dots)]
    ensures now == before[..doubledots] + Zeros(8 - dots) + before[doubledots..dots]
  {
  }

  /** One turn of the loops of `printTo`. */
  lemma Print4Step(a: seq<byte>, i: nat, text: string)
    requires |a| == 4 && i < 4
    ensures text + Print4From(a, i) ==
            if i == 3 then text + Digits(a[i], 10) else text + Digits(a[i], 10) + "." + Print4From(a, i + 1)
  {
    hide Digits;
  }

  lemma Print6Step(g: seq<Group>, i: nat, count0: int, text: string)
    requires |g| == 8 && i < 8
    ensures var shown := g[i] != 0 || count0 < 0;
            var count1 := if !shown then count0 + 1 else if count0 > 0 then -8 else count0;
            var text1 := if shown then text + Digits(g[i], 16) else text;
            var text2 := if (i != 7 && count1 < 2) || count1 == 7 then text1 + ":" else text1;
            text + Print6From(g, i, count0) == text2 + Print6From(g, i + 1, count1)
  {
    hide Digits;
  }
}
