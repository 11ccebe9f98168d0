/** Exactly which texts the parsers take, and for which addresses. */
module IpGrammar {
  import opened Bytes
  import opened Options
  import opened IpAddress

  // ----- numbers

  /** The number that a text of digits stands for, the last digit counting 1. */
  function Number(s: string, base: nat, value: char -> int): int {
    if s == [] then 0 else Number(s[..|s| - 1], base, value) * base + value(s[|s| - 1])
  }

  /** The same, the digits put behind `acc` one by one. */
  function Appended(s: string, base: nat, value: char -> int, acc: int): int {
    if s == [] then acc else Appended(s[1..], base, value, acc * base + value(s[0]))
  }

  lemma {:induction false} AppendedLast(s: string, base: nat, value: char -> int, acc: int)
    requires s != []
    ensures Appended(s, base, value, acc) ==
            Appended(s[..|s| - 1], base, value, acc) * base + value(s[|s| - 1])
    decreases |s|
  {
    if |s| > 1 {
      AppendedLast(s[1..], base, value, acc * base + value(s[0]));
      assert s[1..][..|s| - 2] == s[..|s| - 1][1..];
    }
  }

  lemma {:induction false} AppendedIsNumber(s: string, base: nat, value: char -> int)
    ensures Appended(s, base, value, 0) == Number(s, base, value)
    decreases |s|
  {
    if s != [] {
      AppendedLast(s, base, value, 0);
      AppendedIsNumber(s[..|s| - 1], base, value);
    }
  }

  // ----- IPv4

  predicate IsDecimal(s: string) {
    forall i :: 0 <= i < |s| ==> '0' <= s[i] <= '9'
  }

  function Decimal(c: char): int {
    c as int - '0' as int
  }

  /** Texts with dots between them. */
  function Dotted(parts: seq<string>): string
    requires parts != []
  {
    if |parts| == 1 then parts[0] else parts[0] + "." + Dotted(parts[1..])
  }

  lemma {:induction false} DecimalTooLarge(s: string, acc: int)
    requires IsDecimal(s) && acc > 255
    ensures Appended(s, 10, Decimal, acc) > 255
    decreases |s|
  {
    if s != [] {
      DecimalTooLarge(s[1..], acc * 10 + Decimal(s[0]));
    }
  }

  /** Digits are read one by one; the value may not pass 255 on the way. */
  lemma {:induction false} ScanDecimal(s: string, rest: string, octets: seq<byte>, acc: byte)
    requires IsDecimal(s) && |octets| <= 3
    ensures var n := Appended(s, 10, Decimal, acc);
            n >= 0 && Scan4(s + rest, octets, acc) == if n > 255 then None else Scan4(rest, octets, n)
    decreases |s|
  {
    if s == [] {
      assert s + rest == rest;
    } else {
      assert (s + rest)[0] == s[0] && (s + rest)[1..] == s[1..] + rest;
      var next := acc * 10 + Decimal(s[0]);
      if next > 255 {
        DecimalTooLarge(s[1..], next);
      } else {
        ScanDecimal(s[1..], rest, octets, next);
      }
    }
  }

  ghost predicate AllDecimal(parts: seq<string>) {
    forall i :: 0 <= i < |parts| ==> IsDecimal(parts[i])
  }

  /** The octets are the numbers between the dots. */
  ghost predicate Denotes4(parts: seq<string>, octets: seq<byte>) {
    |parts| == |octets| && forall i :: 0 <= i < |parts| ==> Number(parts[i], 10, Decimal) == octets[i]
  }

  /** The parser on digits with dots between them. */
  lemma {:induction false} ScanDotted(parts: seq<string>, octets: seq<byte>)
    requires parts != [] && AllDecimal(parts) && |octets| <= 3
    ensures var r := Scan4(Dotted(parts), octets, 0);
            && (r.Some? ==> octets <= r.value && |r.value| == 4 && Denotes4(parts, r.value[|octets|..]))
            && (r == None ==>
                  |octets| + |parts| != 4 || exists i :: 0 <= i < |parts| && Number(parts[i], 10, Decimal) > 255)
    decreases |parts|
  {
    hide IsDecimal;
    var n := Number(parts[0], 10, Decimal);
    AppendedIsNumber(parts[0], 10, Decimal);
    var rest := if |parts| == 1 then "" else "." + Dotted(parts[1..]);
    assert Dotted(parts) == parts[0] + rest;
    ScanDecimal(parts[0], rest, octets, 0);
    if n <= 255 && |parts| > 1 && |octets| < 3 {
      assert rest[0] == '.' && rest[1..] == Dotted(parts[1..]);
      ScanDotted(parts[1..], octets + [n]);
      FirstOctet(parts, octets, n, Scan4(Dotted(parts[1..]), octets + [n], 0));
    }
  }

  lemma FirstOctet(parts: seq<string>, octets: seq<byte>, n: byte, r: Option<seq<byte>>)
    requires |parts| > 1 && n == Number(parts[0], 10, Decimal)
    requires r.Some? ==>
               octets + [n] <= r.value && |r.value| == 4 && Denotes4(parts[1..], r.value[|octets| + 1..])
    requires r == None ==>
               || |octets| + 1 + |parts[1..]| != 4
               || exists i :: 0 <= i < |parts[1..]| && Number(parts[1..][i], 10, Decimal) > 255
    ensures r.Some? ==> octets <= r.value && Denotes4(parts, r.value[|octets|..])
    ensures r == None ==>
              |octets| + |parts| != 4 || exists i :: 0 <= i < |parts| && Number(parts[i], 10, Decimal) > 255
  {
    if r.Some? {
      var o := r.value[|octets|..];
      assert r.value[|octets|] == n && o[1..] == r.value[|octets| + 1..];
      forall i | 0 <= i < |parts|
        ensures Number(parts[i], 10, Decimal) == o[i]
      {
        if i > 0 {
          assert parts[1..][i - 1] == parts[i];
        }
      }
    } else if |octets| + |parts| == 4 {
      var i :| 0 <= i < |parts[1..]| && Number(parts[1..][i], 10, Decimal) > 255;
      assert parts[i + 1] == parts[1..][i];
    }
  }

  /** The parts of a text between its dots. */
  function Parts(s: string): (parts: seq<string>)
    ensures parts != []
  {
    if s == [] then [[]] else
    var rest := Parts(s[1..]);
    if s[0] == '.' then [[]] + rest else [[s[0]] + rest[0]] + rest[1..]
  }

  lemma {:induction false} PartsAreDotted(s: string)
    ensures Dotted(Parts(s)) == s
  {
    if s != [] {
      var rest := Parts(s[1..]);
      PartsAreDotted(s[1..]);
      if s[0] == '.' {
        assert ([[]] + rest)[1..] == rest;
      } else {
        var parts := [[s[0]] + rest[0]] + rest[1..];
        assert parts[1..] == rest[1..];
      }
    }
  }

  lemma {:induction false} TakenAreDecimal(s: string, octets: seq<byte>, acc: byte)
    requires |octets| <= 3 && Scan4(s, octets, acc).Some?
    ensures AllDecimal(Parts(s))
    decreases |s|
  {
    if s != [] {
      var c, rest := s[0], Parts(s[1..]);
      if '0' <= c <= '9' {
        TakenAreDecimal(s[1..], octets, acc * 10 + (c as int - '0' as int));
      } else {
        TakenAreDecimal(s[1..], octets + [acc], 0);
      }
      forall i | 0 <= i < |Parts(s)|
        ensures IsDecimal(Parts(s)[i])
      {
        assert c != '.' && i > 0 ==> Parts(s)[i] == rest[i];
      }
    }
  }

  /**
    The IPv4 parser takes exactly four texts of digits with dots between them, each a number up to 255, and gives these
    numbers. A text may be empty, and may have leading zeros.
  */
  lemma Takes4Exactly(s: string, octets: seq<byte>)
    ensures Scan4(s, [], 0) == Some(octets) <==>
            exists parts :: |parts| == 4 && AllDecimal(parts) && s == Dotted(parts) && Denotes4(parts, octets)
  {
    hide Number;
    if Scan4(s, [], 0) == Some(octets) {
      TakenAreDecimal(s, [], 0);
      PartsAreDotted(s);
      ScanDotted(Parts(s), []);
      assert octets[0..] == octets;
    }
    forall parts | |parts| == 4 && AllDecimal(parts) && s == Dotted(parts) && Denotes4(parts, octets)
      ensures Scan4(s, [], 0) == Some(octets)
    {
      ScanDotted(parts, []);
      var r := Scan4(s, [], 0);
      assert r.value[0..] == r.value;
      SameOctets(parts, r.value, octets);
    }
  }

  lemma SameOctets(parts: seq<string>, a: seq<byte>, b: seq<byte>)
    requires Denotes4(parts, a) && Denotes4(parts, b)
    ensures a == b
  {
  }

  // ----- IPv6

  /** The digits are those of base 36, in either case, although the base is 16: letters beyond `f` are taken. */
  lemma DigitsExactly(c: char, d: nat)
    requires d < 36
    ensures DigitValue(c) == d <==>
              if d < 10 then c as int == '0' as int + d
              else c as int == 'a' as int + (d - 10) || c as int == 'A' as int + (d - 10)
  {
  }

  ghost predicate AreDigits(s: string) {
    forall i :: 0 <= i < |s| ==> DigitValue(s[i]) >= 0
  }

  ghost predicate AllDigits(parts: seq<string>) {
    forall i :: 0 <= i < |parts| ==> AreDigits(parts[i])
  }

  /** Texts with colons between them, two behind the `d`th. */
  ghost function Coloned(parts: seq<string>, d: int): string
    requires parts != []
  {
    if |parts| == 1 then parts[0] else parts[0] + (if d == 0 then "::" else ":") + Coloned(parts[1..], d - 1)
  }

  /** No two colons stand together but those behind the `d`th text and what follows them. */
  ghost predicate Apart(parts: seq<string>, d: int) {
    forall i :: 0 < i < |parts| - 1 && parts[i] == [] ==> d == i - 1
  }

  lemma {:induction false} HexTooLarge(s: string, acc: int)
    requires AreDigits(s) && acc > 0xffff
    ensures Appended(s, 16, DigitValue, acc) > 0xffff
    decreases |s|
  {
    hide DigitValue;
    if s != [] {
      HexTooLarge(s[1..], acc * 16 + DigitValue(s[0]));
    }
  }

  lemma {:induction false} ScanHex(s: string, rest: string, p: Parse)
    requires AreDigits(s) && Midway(p)
    ensures var n := Appended(s, 16, DigitValue, p.acc);
            n >= 0 && Scan6(s + rest, p) == if n > 0xffff then None else Scan6(rest, p.(acc := n))
    decreases |s|
  {
    hide DigitValue;
    if s == [] {
      assert s + rest == rest;
    } else {
      assert (s + rest)[0] == s[0] && (s + rest)[1..] == s[1..] + rest;
      var next := p.acc * 16 + DigitValue(s[0]);
      if next > 0xffff {
        HexTooLarge(s[1..], next);
      } else {
        ScanHex(s[1..], rest, p.(acc := next));
      }
    }
  }

  /** The numbers of the groups, one behind the other. */
  ghost predicate Denotes6(parts: seq<string>, groups: seq<Group>) {
    |parts| == |groups| && forall i :: 0 <= i < |parts| ==> Number(parts[i], 16, DigitValue) == groups[i]
  }

  ghost predicate TooLarge(parts: seq<string>) {
    exists i :: 0 <= i < |parts| && Number(parts[i], 16, DigitValue) > 0xffff
  }

  /** What is stored once `parts` have been read behind `p`. */
  ghost predicate ReadBehind(p: Parse, parts: seq<string>, d: int, r: Parse) {
    var all := r.stored + [r.acc];
    && |all| == |p.stored| + |parts| <= 8 && p.stored <= all && Denotes6(parts, all[|p.stored|..])
    && if d >= 0 then d < |parts| - 1 && p.mark == -1 && r.mark == |p.stored| + d + if all[|p.stored| + d] != 0 then 1
       else 0
       else r.mark == p.mark
  }

  ghost predicate CannotRead(p: Parse, parts: seq<string>, d: int) {
    |p.stored| + |parts| > 8 || TooLarge(parts) || (d >= 0 && p.mark >= 0)
  }

  lemma ColonStart(parts: seq<string>, d: int)
    requires |parts| > 1 && AllDigits(parts) && Apart(parts, d)
    ensures var rest := Coloned(parts[1..], d - 1);
            d != 0 ==> rest == [] || rest[0] != ':'
  {
    hide DigitValue;
    if d != 0 && parts[1] == [] {
      assert |parts| == 2;
    } else if parts[1] != [] {
      assert Coloned(parts[1..], d - 1)[0] == parts[1][0] && DigitValue(parts[1][0]) >= 0;
      ColonIsNoDigit();
    }
  }

  lemma ColonIsNoDigit()
    ensures DigitValue(':') < 0
  {
  }

  lemma ApartTail(parts: seq<string>, d: int)
    requires parts != [] && Apart(parts, d) && AllDigits(parts)
    ensures Apart(parts[1..], d - 1) && AllDigits(parts[1..])
  {
    hide AreDigits;
    assert forall i :: 0 <= i < |parts| - 1 ==> parts[1..][i] == parts[i + 1];
  }

  /** A colon or two, and what follows. */
  lemma ScanColons(rest: string, double: bool, p: Parse)
    requires Midway(p) && (!double ==> rest == [] || rest[0] != ':')
    ensures Scan6((if double then "::" else ":") + rest, p) ==
            if (double && p.mark >= 0) || |p.stored| == 7 then None else
            Scan6(rest,
                  Parse(p.stored + [p.acc], 0, if double then |p.stored| + (if p.acc != 0 then 1 else 0) else p.mark))
  {
    ColonIsNoDigit();
    var s := (if double then "::" else ":") + rest;
    if double {
      assert s[0] == ':' && s[1] == ':' && s[2..] == rest;
    } else {
      assert s[0] == ':' && s[1..] == rest;
    }
  }

  /** The parser on groups with colons between them. */
  lemma {:induction false} ScanColoned(parts: seq<string>, d: int, p: Parse)
    requires parts != [] && AllDigits(parts) && Apart(parts, d) && -1 <= d < |parts| - 1
    requires Midway(p) && p.acc == 0
    ensures var r := Scan6(Coloned(parts, d), p);
            && (r.Some? ==> ReadBehind(p, parts, d, r.value))
            && (r == None ==> CannotRead(p, parts, d))
    decreases |parts|
  {
    hide Scan6;
    hide DigitValue;
    hide Number;
    var n := Number(parts[0], 16, DigitValue);
    AppendedIsNumber(parts[0], 16, DigitValue);
    if |parts| == 1 {
      ScanHex(parts[0], [], p);
      assert parts[0] + [] == parts[0];
      Scan6Nothing(p.(acc := if n > 0xffff then 0 else n));
      OneRead(p, parts, n);
    } else {
      var rest := Coloned(parts[1..], d - 1);
      var colons := if d == 0 then "::" else ":";
      assert Coloned(parts, d) == parts[0] + (colons + rest);
      ScanHex(parts[0], colons + rest, p);
      ColonStart(parts, d);
      if n <= 0xffff {
        ScanColons(rest, d == 0, p.(acc := n));
        if !(d == 0 && p.mark >= 0) && |p.stored| < 7 {
          var q := Parse(p.stored + [n], 0, if d == 0 then |p.stored| + (if n != 0 then 1 else 0) else p.mark);
          ApartTail(parts, d);
          var e := if d <= 0 then -1 else d - 1;
          SameColons(parts[1..], d - 1);
          ScanColoned(parts[1..], e, q);
          MoreRead(p, parts, d, n, Scan6(rest, q));
        }
      }
      assert n > 0xffff ==> TooLarge(parts);
    }
  }

  /** Below 0 it does not matter where the double colon was. */
  lemma {:induction false} SameColons(parts: seq<string>, d: int)
    requires parts != []
    ensures d < 0 ==> Coloned(parts, d) == Coloned(parts, -1)
    ensures d < 0 && Apart(parts, d) ==> Apart(parts, -1)
    decreases |parts|
  {
    if |parts| > 1 {
      SameColons(parts[1..], d - 1);
      SameColons(parts[1..], -2);
    }
  }

  lemma OneRead(p: Parse, parts: seq<string>, n: int)
    requires |parts| == 1 && n == Number(parts[0], 16, DigitValue) && n >= 0 && Midway(p)
    ensures n <= 0xffff ==> ReadBehind(p, parts, -1, p.(acc := n))
    ensures n > 0xffff ==> TooLarge(parts)
  {
    hide Number;
    if n <= 0xffff {
      assert (p.stored + [n])[|p.stored|..] == [n];
    }
  }

  lemma MoreRead(p: Parse, parts: seq<string>, d: int, n: Group, r: Option<Parse>)
    requires |parts| > 1 && n == Number(parts[0], 16, DigitValue) && Midway(p) && -1 <= d < |parts| - 1
    requires |p.stored| < 7 && !(d == 0 && p.mark >= 0)
    requires var q := Parse(p.stored + [n], 0, if d == 0 then |p.stored| + (if n != 0 then 1 else 0) else p.mark);
             var e := if d <= 0 then -1 else d - 1;
             && (r.Some? ==> ReadBehind(q, parts[1..], e, r.value))
             && (r == None ==> CannotRead(q, parts[1..], e))
    ensures r.Some? ==> ReadBehind(p, parts, d, r.value)
    ensures r == None ==> CannotRead(p, parts, d)
  {
    hide Number;
    if r.Some? {
      var all := r.value.stored + [r.value.acc];
      var groups := all[|p.stored|..];
      assert (p.stored + [n]) <= all && all[|p.stored|] == n && groups[1..] == all[|p.stored| + 1..];
      forall i | 0 <= i < |parts|
        ensures Number(parts[i], 16, DigitValue) == groups[i]
      {
        if i > 0 {
          assert parts[1..][i - 1] == parts[i];
        }
      }
    } else if TooLarge(parts[1..]) {
      var i :| 0 <= i < |parts[1..]| && Number(parts[1..][i], 16, DigitValue) > 0xffff;
      assert parts[i + 1] == parts[1..][i];
    }
  }

  /** The groups of an address are the numbers of the texts; zeros stand for the double colon behind the `d`th. */
  ghost predicate Spells(parts: seq<string>, d: int, groups: seq<Group>) {
    && |groups| == 8 && 1 <= |parts| <= 8 && -1 <= d < |parts| - 1 && (d == -1 ==> |parts| == 8)
    && (forall i :: 0 <= i < |parts| && (d == -1 || i <= d) ==> Number(parts[i], 16, DigitValue) == groups[i])
    && (forall i :: d < i < |parts| && d >= 0 ==> Number(parts[i], 16, DigitValue) == groups[i + 8 - |parts|])
    && (forall j :: 0 <= d < j < d + 9 - |parts| ==> groups[j] == 0)
  }

  lemma ExpandSpells(parts: seq<string>, d: int, r: Parse)
    requires parts != [] && -1 <= d < |parts| - 1 && ReadBehind(Parse([], 0, -1), parts, d, r) && Midway(r)
    ensures Expand(r).Some? <==> d >= 0 || |parts| == 8
    ensures Expand(r).Some? ==> Spells(parts, d, Expand(r).value)
  {
    hide Number;
    var all := r.stored + [r.acc];
    assert all[0..] == all;
  }

  lemma SpellsOnce(parts: seq<string>, d: int, a: seq<Group>, b: seq<Group>)
    requires Spells(parts, d, a) && Spells(parts, d, b)
    ensures a == b
  {
    hide Number;
    forall j | 0 <= j < 8
      ensures a[j] == b[j]
    {
      if d >= 0 && j >= d + 9 - |parts| {
        var i := j - 8 + |parts|;
        assert Number(parts[i], 16, DigitValue) == a[i + 8 - |parts|] == b[i + 8 - |parts|];
      }
    }
  }

  lemma SpellsSmall(parts: seq<string>, d: int, groups: seq<Group>)
    requires Spells(parts, d, groups)
    ensures !TooLarge(parts)
  {
    hide Number;
    forall i | 0 <= i < |parts|
      ensures Number(parts[i], 16, DigitValue) <= 0xffff
    {
      if d >= 0 && i > d {
        assert Number(parts[i], 16, DigitValue) == groups[i + 8 - |parts|];
      }
    }
  }

  /** The texts between the colons, ... */
  ghost function Groups6(s: string): (parts: seq<string>)
    ensures parts != []
    decreases |s|
  {
    if s == [] then [[]] else
    if s[0] != ':' then var rest := Groups6(s[1..]); [[s[0]] + rest[0]] + rest[1..] else
    [[]] + Groups6(if |s| > 1 && s[1] == ':' then s[2..] else s[1..])
  }

  /** ... and which of them is the first with two colons behind it. */
  ghost function Double6(s: string): (d: int)
    ensures -1 <= d < |Groups6(s)| - 1
    decreases |s|
  {
    if s == [] then -1 else
    if s[0] != ':' then Double6(s[1..]) else
    if |s| > 1 && s[1] == ':' then 0 else
    var d := Double6(s[1..]);
    if d < 0 then -1 else d + 1
  }

  lemma {:induction false} TakenAreGroups(s: string, p: Parse)
    requires Midway(p) && Scan6(s, p).Some?
    ensures p.mark >= 0 ==> Double6(s) == -1
    ensures AllDigits(Groups6(s)) && Coloned(Groups6(s), Double6(s)) == s && Apart(Groups6(s), Double6(s))
    ensures Groups6(s)[0] == [] ==> s == [] || s[0] == ':'
    decreases |s|
  {
    hide DigitValue;
    hide AllDigits;
    hide Apart;
    hide Coloned;
    ColonIsNoDigit();
    if s == [] {
      NoGroups();
    } else if DigitValue(s[0]) >= 0 {
      TakenAreGroups(s[1..], p.(acc := p.acc * 16 + DigitValue(s[0])));
      DigitInFront(s, Groups6(s[1..]), Double6(s[1..]));
    } else if |s| > 1 && s[1] == ':' {
      TakenAreGroups(s[2..], Parse(p.stored + [p.acc], 0, |p.stored| + if p.acc != 0 then 1 else 0));
      assert s == "::" + s[2..];
      ColonsInFront(s, true, Groups6(s[2..]), -1);
    } else {
      TakenAreGroups(s[1..], Parse(p.stored + [p.acc], 0, p.mark));
      assert s == ":" + s[1..];
      ColonsInFront(s, false, Groups6(s[1..]), Double6(s[1..]));
    }
  }

  lemma NoGroups()
    ensures AllDigits([[]]) && Coloned([[]], -1) == [] && Apart([[]], -1)
  {
  }

  lemma DigitInFront(s: string, rest: seq<string>, d: int)
    requires s != [] && rest != [] && DigitValue(s[0]) >= 0
    requires AllDigits(rest) && Coloned(rest, d) == s[1..] && Apart(rest, d)
    ensures var parts := [[s[0]] + rest[0]] + rest[1..];
            AllDigits(parts) && Coloned(parts, d) == s && Apart(parts, d)
  {
    hide DigitValue;
    var parts := [[s[0]] + rest[0]] + rest[1..];
    assert parts[1..] == rest[1..] && s == [s[0]] + s[1..];
    forall i | 0 <= i < |parts|
      ensures AreDigits(parts[i])
    {
      assert AreDigits(rest[i]);
    }
    if |rest| > 1 {
      var colons := if d == 0 then "::" else ":";
      assert Coloned(rest, d) == rest[0] + colons + Coloned(rest[1..], d - 1);
      assert Coloned(parts, d) == [s[0]] + rest[0] + colons + Coloned(rest[1..], d - 1);
    }
  }

  lemma ColonsAreText(parts: seq<string>, d: int)
    requires |parts| > 1
    ensures Coloned(parts, d) != []
  {
  }

  lemma ColonsInFront(s: string, double: bool, rest: seq<string>, d: int)
    requires rest != [] && AllDigits(rest) && Apart(rest, d) && -1 <= d < |rest| - 1
    requires s == (if double then "::" else ":") + Coloned(rest, d)
    requires if double then d == -1 else rest[0] == [] ==> Coloned(rest, d) == []
    ensures var parts, e := [[]] + rest, if double then 0 else if d < 0 then -1 else d + 1;
            AllDigits(parts) && Coloned(parts, e) == s && Apart(parts, e)
  {
    hide AreDigits;
    var parts, e := [[]] + rest, if double then 0 else if d < 0 then -1 else d + 1;
    assert parts[1..] == rest;
    SameColons(rest, e - 1);
    if |rest| > 1 {
      ColonsAreText(rest, d);
    }
    EmptyInFront(rest, d, double);
  }

  lemma EmptyInFront(rest: seq<string>, d: int, double: bool)
    requires AllDigits(rest) && Apart(rest, d) && (double ==> d == -1)
    requires !double && |rest| > 1 ==> rest[0] != []
    ensures var parts, e := [[]] + rest, if double then 0 else if d < 0 then -1 else d + 1;
            AllDigits(parts) && Apart(parts, e)
  {
    var parts, e := [[]] + rest, if double then 0 else if d < 0 then -1 else d + 1;
    forall i | 0 <= i < |parts|
      ensures AreDigits(parts[i])
    {
      if i > 0 {
        assert AreDigits(rest[i - 1]);
      }
    }
    forall i | 0 < i < |parts| - 1 && parts[i] == []
      ensures e == i - 1
    {
      assert rest[i - 1] == [];
    }
  }

  /**
    The IPv6 parser takes exactly the texts of digits with colons between them, no number above 0xffff, that are eight,
    or up to eight with two colons in one place, where zeros are put. A text may be empty, and its digits may be letters
    beyond `f`.
  */
  lemma Takes6Exactly(s: string, groups: seq<Group>)
    ensures Parse6(s) == Some(groups) <==>
            exists parts: seq<string>, d: int ::
              parts != [] && AllDigits(parts) && Apart(parts, d) && s == Coloned(parts, d) && Spells(parts, d, groups)
  {
    hide *;
    if Parse6(s) == Some(groups) {
      TakenSpells(s, groups);
    }
    forall parts: seq<string>, d: int |
        parts != [] && AllDigits(parts) && Apart(parts, d) && s == Coloned(parts, d) && Spells(parts, d, groups)
      ensures Parse6(s) == Some(groups)
    {
      SpelledIsTaken(parts, d, groups);
    }
  }

  lemma TakenSpells(s: string, groups: seq<Group>)
    requires Parse6(s) == Some(groups)
    ensures var parts, d := Groups6(s), Double6(s);
            parts != [] && AllDigits(parts) && Apart(parts, d) && s == Coloned(parts, d) && Spells(parts, d, groups)
  {
    hide Scan6;
    hide Expand;
    hide Spells;
    hide Apart;
    hide AllDigits;
    var start := Parse([], 0, -1);
    TakenAreGroups(s, start);
    ScanColoned(Groups6(s), Double6(s), start);
    ExpandSpells(Groups6(s), Double6(s), Scan6(s, start).value);
  }

  lemma SpelledIsTaken(parts: seq<string>, d: int, groups: seq<Group>)
    requires parts != [] && AllDigits(parts) && Apart(parts, d) && Spells(parts, d, groups)
    ensures Parse6(Coloned(parts, d)) == Some(groups)
  {
    hide Scan6;
    hide Expand;
    hide Apart;
    hide AllDigits;
    var start := Parse([], 0, -1);
    SpellsSmall(parts, d, groups);
    ScanColoned(parts, d, start);
    var r := Scan6(Coloned(parts, d), start);
    ExpandSpells(parts, d, r.value);
    SpellsOnce(parts, d, Expand(r.value).value, groups);
  }

  // ----- the texts printed

  /** The digits of a base, without leading zeros and in small letters. */
  ghost predicate Canonical(s: string, n: nat, base: nat, value: char -> int)
    requires base <= 16
  {
    && s != [] && Number(s, base, value) == n && (s[0] == '0' ==> s == "0")
    && (forall i :: 0 <= i < |s| ==> s[i] in "0123456789abcdef"[..base])
  }

  /** A number is printed without leading zeros and in small letters, and its text stands for it. */
  lemma {:induction false} DigitsAreCanonical(n: nat, base: nat, value: char -> int)
    requires 2 <= base <= 16 && forall d :: 0 <= d < base ==> value("0123456789abcdef"[d]) == d
    ensures Canonical(Digits(n, base), n, base, value)
  {
    hide Canonical;
    hide DigitChar;
    if n < base {
      OneDigit(n, base, value);
    } else {
      assert "0123456789abcdef"[0] == '0';
      DigitsAreCanonical(n / base, base, value);
      OneDigitMore(Digits(n / base, base), n, base, value);
    }
  }

  lemma OneDigit(d: nat, base: nat, value: char -> int)
    requires d < base <= 16 && value("0123456789abcdef"[d]) == d
    ensures Canonical([DigitChar(d)], d, base, value)
  {
    assert "0123456789abcdef"[..base][d] == DigitChar(d);
    assert Number([DigitChar(d)][..0], base, value) == 0;
  }

  lemma OneDigitMore(front: string, n: nat, base: nat, value: char -> int)
    requires 2 <= base <= 16 && n >= base && Canonical(front, n / base, base, value)
    requires value("0123456789abcdef"[n % base]) == n % base && value('0') == 0
    ensures Canonical(front + [DigitChar(n % base)], n, base, value)
  {
    var s := front + [DigitChar(n % base)];
    assert s[..|s| - 1] == front;
    assert "0123456789abcdef"[..base][n % base] == DigitChar(n % base);
    WholeAndRest(n, base);
    ZeroIsZero(base, value);
  }

  lemma ZeroIsZero(base: nat, value: char -> int)
    requires value('0') == 0
    ensures Number("0", base, value) == 0
  {
    assert "0"[..0] == [];
  }

  lemma WholeAndRest(n: nat, base: nat)
    requires base > 0
    ensures n / base * base + n % base == n && (n >= base ==> n / base > 0)
  {
  }

  /** Four numbers with dots between them, but for the two addresses that count as unset. */
  lemma TextOf4(a: seq<byte>)
    requires |a| == 4
    ensures Text(V4(a)) ==
            if a == [0, 0, 0, 0] || a == [255, 255, 255, 255] then "(IP unset)"
            else Dotted([Digits(a[0], 10), Digits(a[1], 10), Digits(a[2], 10), Digits(a[3], 10)])
  {
    hide Digits;
    var parts := [Digits(a[0], 10), Digits(a[1], 10), Digits(a[2], 10), Digits(a[3], 10)];
    DottedFrom(parts, a, 0);
    assert parts[0..] == parts;
  }

  lemma {:induction false} DottedFrom(parts: seq<string>, a: seq<byte>, i: nat)
    requires |parts| == |a| == 4 && i < 4 && forall k :: 0 <= k < 4 ==> parts[k] == Digits(a[k], 10)
    ensures Print4From(a, i) == Dotted(parts[i..])
    decreases 4 - i
  {
    hide Digits;
    if i < 3 {
      assert parts[i..][1..] == parts[i + 1..];
      DottedFrom(parts, a, i + 1);
    }
  }
}
