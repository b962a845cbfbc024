/** The two IPv4 address validators of the application.

    `helpers.kt` splits the address on "." and parses each part with
    Kotlin's `String.toInt()`, which is Java's `Integer.parseInt`; an
    unparseable part throws and the exception turns into `false`.

    `MyViewModel.kt` matches the whole address against the pattern
    `^((25[0-5]|2[0-4][0-9]|[0-1]?[0-9][0-9]?)\.){3}(25[0-5]|2[0-4][0-9]|[0-1]?[0-9][0-9]?)$`.

    The pattern is the stricter of the two: every address it accepts is
    accepted by the parser, but not conversely. */
module Ipv4 {
  import opened Wrappers
  import opened Text


  predicate IsDigit(c: char) { '0' <= c <= '9' }

  predicate AllDigits(s: string)
  {
    forall i :: 0 <= i < |s| ==> IsDigit(s[i])
  }

  function DigitValue(c: char): (d: nat)
    requires IsDigit(c)
  {
    (c as int) - ('0' as int)
  }

  /** The decimal value of a string of digits, most significant first. */
  function DigitsValue(s: string): (v: nat)
    requires AllDigits(s)
  {
    if |s| == 0 then 0
    else DigitsValue(s[..|s| - 1]) * 10 + DigitValue(s[|s| - 1])
  }

  function Pow10(k: nat): (p: nat)
  {
    if k == 0 then 1 else 10 * Pow10(k - 1)
  }

  /** `k` digits are worth less than `10^k`. */
  lemma {:induction false} DigitsValueBelow(s: string)
    requires AllDigits(s)
    ensures DigitsValue(s) < Pow10(|s|)
  {
    if |s| > 0 {
      DigitsValueBelow(s[..|s| - 1]);
    }
  }

  /** Leading zeros do not change the value of a digit string. */
  lemma {:induction false} LeadingZeroIgnored(s: string)
    requires AllDigits(s)
    ensures AllDigits(['0'] + s) && DigitsValue(['0'] + s) == DigitsValue(s)
    decreases |s|
  {
    var t := ['0'] + s;
    if |s| > 0 {
      assert t[..|t| - 1] == ['0'] + s[..|s| - 1];
      LeadingZeroIgnored(s[..|s| - 1]);
    }
  }

  /** `String.toInt()`: an optional `+` or `-`, then at least one digit,
      and a value that fits a 32-bit `Int`. `None` stands for the
      `NumberFormatException` thrown otherwise. */
  function ParseInt(s: string): (r: Option<int>)
    ensures r.Some? ==> IntMin <= r.value <= IntMax
    ensures r.Some? ==> (
      && |s| > 0
      && var d := if s[0] == '-' || s[0] == '+' then s[1..] else s;
         |d| > 0 && AllDigits(d))
  {
    if |s| == 0 then None
    else
      var negative := s[0] == '-';
      var digits := if s[0] == '-' || s[0] == '+' then s[1..] else s;
      if |digits| == 0 || !AllDigits(digits) then None
      else
        var v: int := if negative then -(DigitsValue(digits) as int) else DigitsValue(digits);
        if v < IntMin || v > IntMax then None else Some(v)
  }

  /** An unsigned digit string short enough not to overflow parses to its
      decimal value. */
  lemma ParseUnsigned(s: string)
    requires 1 <= |s| <= 9 && AllDigits(s)
    ensures ParseInt(s) == Some(DigitsValue(s))
  {
    DigitsValueBelow(s);
    assert Pow10(|s|) <= Pow10(9) by {
      Pow10Monotone(|s|, 9);
    }
  }

  /** A sign in front of such a string gives its value with that sign;
      in particular "-0" parses to 0. */
  lemma ParseSigned(d: string)
    requires 1 <= |d| <= 9 && AllDigits(d)
    ensures ParseInt(['+'] + d) == Some(DigitsValue(d))
    ensures ParseInt(['-'] + d) == Some(-(DigitsValue(d) as int))
  {
    DigitsValueBelow(d);
    assert Pow10(|d|) <= Pow10(9) by {
      Pow10Monotone(|d|, 9);
    }
    assert (['+'] + d)[1..] == d;
    assert (['-'] + d)[1..] == d;
  }

  lemma {:induction false} Pow10Monotone(a: nat, b: nat)
    requires a <= b
    ensures Pow10(a) <= Pow10(b)
    decreases b
  {
    if a < b {
      Pow10Monotone(a, b - 1);
    }
  }

  /** One part as `helpers.kt` checks it: it parses and lies in 0..255. */
  predicate PartInRange(p: string)
  {
    ParseInt(p).Some? && 0 <= ParseInt(p).value <= 255
  }

  /** `parts.all { it.toInt() in 0..255 }` inside `try`: `None` is the
      exception escaping from `toInt`, `Some(b)` the value of `all`, which
      stops at the first part out of range. */
  function AllInRange(parts: seq<string>): (r: Option<bool>)
    ensures r == Some(true) ==> forall i :: 0 <= i < |parts| ==> PartInRange(parts[i])
    ensures r == None ==> exists i :: 0 <= i < |parts| && ParseInt(parts[i]) == None
    ensures r == Some(false) ==> exists i :: 0 <= i < |parts| && !PartInRange(parts[i])
  {
    if |parts| == 0 then Some(true)
    else
      match ParseInt(parts[0])
      case None => None
      case Some(v) => if 0 <= v <= 255 then AllInRange(parts[1..]) else Some(false)
  }

  /** `isValidIpAddress` of `helpers.kt`. */
  function SplitParseValid(ip: string): (valid: bool)
    ensures valid ==> |Split(ip, '.')| == 4
    ensures valid ==> forall i :: 0 <= i < 4 ==> PartInRange(Split(ip, '.')[i])
  {
    var parts := Split(ip, '.');
    if |parts| != 4 then false
    else
      match AllInRange(parts)
      case None => false
      case Some(b) => b
  }

  /** The scan with its early exits is true exactly when every part is in
      range: the order in which a throwing and an out-of-range part are met
      does not matter, both give false. */
  lemma {:induction false} AllInRangeMeaning(parts: seq<string>)
    ensures AllInRange(parts) == Some(true) <==> forall i :: 0 <= i < |parts| ==> PartInRange(parts[i])
  {
    if |parts| > 0 {
      AllInRangeMeaning(parts[1..]);
      if PartInRange(parts[0]) {
        forall i | 0 <= i < |parts| && PartInRange(parts[i]) && i > 0
          ensures PartInRange(parts[1..][i - 1])
        {
        }
      }
    }
  }

  /** The split validator accepts exactly four parts that each parse to an
      integer in 0..255. */
  lemma SplitParseValidMeaning(ip: string)
    ensures SplitParseValid(ip) <==>
      |Split(ip, '.')| == 4 && forall i :: 0 <= i < 4 ==> PartInRange(Split(ip, '.')[i])
  {
    AllInRangeMeaning(Split(ip, '.'));
  }

  // ---------------------------------------------------------------------
  // The pattern of MyViewModel.kt

  /** `25[0-5]` */
  predicate Alt250(p: string)
  {
    |p| == 3 && p[0] == '2' && p[1] == '5' && '0' <= p[2] <= '5'
  }

  /** `2[0-4][0-9]` */
  predicate Alt200(p: string)
  {
    |p| == 3 && p[0] == '2' && '0' <= p[1] <= '4' && IsDigit(p[2])
  }

  /** `[0-1]?[0-9][0-9]?`: one digit, two digits (with or without the
      optional first class, which is contained in `[0-9]`), or three digits
      starting with 0 or 1. */
  predicate AltShort(p: string)
  {
    || (|p| == 1 && IsDigit(p[0]))
    || (|p| == 2 && IsDigit(p[0]) && IsDigit(p[1]))
    || (|p| == 3 && (p[0] == '0' || p[0] == '1') && IsDigit(p[1]) && IsDigit(p[2]))
  }

  /** One octet of the pattern: the alternation of the three branches. */
  predicate Octet(p: string)
  {
    Alt250(p) || Alt200(p) || AltShort(p)
  }

  /** `s` matches `(octet\.){n} octet` in full. */
  predicate Dotted(s: string, n: nat)
    decreases n
  {
    if n == 0 then Octet(s)
    else exists i :: 0 <= i < |s| && s[i] == '.' && Octet(s[..i]) && Dotted(s[i + 1..], n - 1)
  }

  /** `isValidIpAddress` of `MyViewModel.kt`: `matches` anchors the pattern
      at both ends. */
  predicate RegexValid(ip: string)
  {
    Dotted(ip, 3)
  }

  /** An address the pattern accepts has 7 to 15 characters. */
  lemma RegexValidLength(ip: string)
    requires RegexValid(ip)
    ensures 7 <= |ip| <= 15
  {
    DottedLength(ip, 3);
  }

  /** `n` dots between `n + 1` octets of one to three digits each. */
  lemma {:induction false} DottedLength(s: string, n: nat)
    requires Dotted(s, n)
    ensures 2 * n + 1 <= |s| <= 4 * n + 3
    decreases n
  {
    if n > 0 {
      var i :| 0 <= i < |s| && s[i] == '.' && Octet(s[..i]) && Dotted(s[i + 1..], n - 1);
      DottedLength(s[i + 1..], n - 1);
    }
  }

  /** The octet alternation accepts exactly the strings of one to three
      digits whose value is at most 255, leading zeros included. */
  lemma OctetMeaning(p: string)
    ensures Octet(p) <==> 1 <= |p| <= 3 && AllDigits(p) && DigitsValue(p) <= 255
  {
    if 1 <= |p| <= 3 && AllDigits(p) {
      if |p| == 1 {
        assert p[..0] == [];
      } else if |p| == 2 {
        TwoDigits(p);
      } else {
        TwoDigits(p[..2]);
        assert DigitsValue(p) == DigitValue(p[0]) * 100 + DigitValue(p[1]) * 10 + DigitValue(p[2]);
      }
    }
  }

  lemma TwoDigits(q: string)
    requires |q| == 2 && AllDigits(q)
    ensures DigitsValue(q) == DigitValue(q[0]) * 10 + DigitValue(q[1])
  {
    var h := q[..1];
    assert h[..0] == [] && h[0] == q[0];
    assert DigitsValue(h) == DigitValue(q[0]);
  }

  lemma OctetHasNoDot(p: string)
    requires Octet(p)
    ensures '.' !in p
  {
    OctetMeaning(p);
  }

  /** A full match splits into `n + 1` octets. */
  lemma {:induction false} DottedSplits(s: string, n: nat)
    requires Dotted(s, n)
    ensures |Split(s, '.')| == n + 1
    ensures forall k :: 0 <= k <= n ==> Octet(Split(s, '.')[k])
    decreases n
  {
    if n == 0 {
      OctetHasNoDot(s);
      SplitNoSeparator(s, '.');
    } else {
      var i :| 0 <= i < |s| && s[i] == '.' && Octet(s[..i]) && Dotted(s[i + 1..], n - 1);
      DottedSplits(s[i + 1..], n - 1);
      SplitAtOctet(s, i);
      OctetsCons(s[..i], Split(s[i + 1..], '.'), n);
    }
  }

  /** Splitting at the dot that ends a leading octet. */
  lemma SplitAtOctet(s: string, i: nat)
    requires i < |s| && s[i] == '.' && Octet(s[..i])
    ensures Split(s, '.') == [s[..i]] + Split(s[i + 1..], '.')
  {
    OctetHasNoDot(s[..i]);
    assert s == s[..i] + ['.'] + s[i + 1..];
    SplitCons(s[..i], '.', s[i + 1..]);
  }

  lemma OctetsCons(head: string, tail: seq<string>, n: nat)
    requires n >= 1 && |tail| == n && Octet(head)
    requires forall k :: 0 <= k < n ==> Octet(tail[k])
    ensures forall k :: 0 <= k <= n ==> Octet(([head] + tail)[k])
  {
    forall k | 0 <= k <= n
      ensures Octet(([head] + tail)[k])
    {
      if k > 0 {
        assert ([head] + tail)[k] == tail[k - 1];
      }
    }
  }

  /** Octets joined with dots match the pattern. */
  lemma {:induction false} JoinedDotted(parts: seq<string>, n: nat)
    requires |parts| == n + 1
    requires forall k :: 0 <= k <= n ==> Octet(parts[k])
    ensures Dotted(Join(parts, '.'), n)
    decreases n
  {
    if n > 0 {
      var s := Join(parts, '.');
      var i := |parts[0]|;
      var rest := Join(parts[1..], '.');
      assert s == parts[0] + ['.'] + rest;
      assert s[..i] == parts[0];
      assert s[i + 1..] == rest;
      JoinedDotted(parts[1..], n - 1);
      DottedIntro(s, i, n);
    }
  }

  /** A leading octet, a dot and a match of the rest. */
  lemma DottedIntro(s: string, i: nat, n: nat)
    requires n > 0 && i < |s| && s[i] == '.' && Octet(s[..i]) && Dotted(s[i + 1..], n - 1)
    ensures Dotted(s, n)
  {
  }

  /** The pattern, restated on the parts `split(".")` produces: exactly
      four of them, each an octet. */
  lemma RegexValidMeaning(ip: string)
    ensures RegexValid(ip) <==>
      |Split(ip, '.')| == 4 && forall k :: 0 <= k < 4 ==> Octet(Split(ip, '.')[k])
  {
    if RegexValid(ip) {
      DottedSplits(ip, 3);
    }
    var parts := Split(ip, '.');
    if |parts| == 4 && forall k :: 0 <= k < 4 ==> Octet(parts[k]) {
      JoinSplit(ip, '.');
      JoinedDotted(parts, 3);
    }
  }

  /** An octet always parses, to a value in 0..255. */
  lemma OctetInRange(p: string)
    requires Octet(p)
    ensures PartInRange(p)
  {
    OctetMeaning(p);
    ParseUnsigned(p);
  }

  /** Every address the pattern accepts, the split validator accepts. */
  lemma RegexImpliesSplitParse(ip: string)
    requires RegexValid(ip)
    ensures SplitParseValid(ip)
  {
    RegexValidMeaning(ip);
    SplitParseValidMeaning(ip);
    var parts := Split(ip, '.');
    forall k | 0 <= k < 4
      ensures PartInRange(parts[k])
    {
      OctetInRange(parts[k]);
    }
  }

  /** The address written `a.b.c.d`. */
  function Address(a: string, b: string, c: string, d: string): (ip: string)
  {
    a + "." + b + "." + c + "." + d
  }

  /** The parts of a four-part dotted string. */
  lemma SplitFour(a: string, b: string, c: string, d: string)
    requires '.' !in a && '.' !in b && '.' !in c && '.' !in d
    ensures Split(Address(a, b, c, d), '.') == [a, b, c, d]
  {
    SplitNoSeparator(d, '.');
    SplitCons(c, '.', d);
    assert c + "." + d == c + ['.'] + d;
    SplitCons(b, '.', c + "." + d);
    assert b + "." + c + "." + d == b + ['.'] + (c + "." + d);
    SplitCons(a, '.', b + "." + c + "." + d);
    assert a + "." + b + "." + c + "." + d == a + ['.'] + (b + "." + c + "." + d);
  }

  /** The split validator on an address written as four dot-free parts. */
  lemma SplitParseFour(a: string, b: string, c: string, d: string)
    requires '.' !in a && '.' !in b && '.' !in c && '.' !in d
    ensures SplitParseValid(Address(a, b, c, d)) <==>
      PartInRange(a) && PartInRange(b) && PartInRange(c) && PartInRange(d)
  {
    var ip := Address(a, b, c, d);
    SplitFour(a, b, c, d);
    SplitParseValidMeaning(ip);
    FourParts(Split(ip, '.'), a, b, c, d);
  }

  lemma FourParts(parts: seq<string>, a: string, b: string, c: string, d: string)
    requires parts == [a, b, c, d]
    ensures (forall i :: 0 <= i < 4 ==> PartInRange(parts[i])) <==>
      PartInRange(a) && PartInRange(b) && PartInRange(c) && PartInRange(d)
    ensures (forall i :: 0 <= i < 4 ==> Octet(parts[i])) <==>
      Octet(a) && Octet(b) && Octet(c) && Octet(d)
  {
    assert parts[0] == a && parts[1] == b && parts[2] == c && parts[3] == d;
  }

  /** The pattern on an address written as four dot-free parts. */
  lemma RegexFour(a: string, b: string, c: string, d: string)
    requires '.' !in a && '.' !in b && '.' !in c && '.' !in d
    ensures RegexValid(Address(a, b, c, d)) <==> Octet(a) && Octet(b) && Octet(c) && Octet(d)
  {
    var ip := Address(a, b, c, d);
    SplitFour(a, b, c, d);
    RegexValidMeaning(ip);
    FourParts(Split(ip, '.'), a, b, c, d);
  }

  /** Single digits are parts in range. */
  lemma DigitPartsInRange()
    ensures PartInRange("1") && PartInRange("2") && PartInRange("3") && PartInRange("4")
  {
    ParseUnsigned("1");
    ParseUnsigned("2");
    ParseUnsigned("3");
    ParseUnsigned("4");
  }

  /** "0001" parses to 1. */
  lemma PaddedPartInRange()
    ensures PartInRange("0001")
  {
    LeadingZeroIgnored("1");
    assert "01" == ['0'] + "1";
    LeadingZeroIgnored("01");
    assert "001" == ['0'] + "01";
    LeadingZeroIgnored("001");
    assert "0001" == ['0'] + "001";
    ParseUnsigned("0001");
  }

  /** A split-valid address the pattern rejects: the parser reads the
      four-digit part "0001" as 1. */
  lemma PaddedPartOnlyParses()
    ensures SplitParseValid(Address("0001", "2", "3", "4")) && !RegexValid(Address("0001", "2", "3", "4"))
  {
    PaddedPartInRange();
    DigitPartsInRange();
    SplitParseFour("0001", "2", "3", "4");
    RegexFour("0001", "2", "3", "4");
  }

  /** Another: the parser accepts an explicit sign, the pattern does not. */
  lemma SignedPartOnlyParses()
    ensures SplitParseValid(Address("+1", "2", "3", "4")) && !RegexValid(Address("+1", "2", "3", "4"))
  {
    assert PartInRange("+1") by {
      ParseSigned("1");
      assert ['+'] + "1" == "+1";
    }
    assert !Octet("+1") by {
      assert !IsDigit("+1"[0]);
    }
    DigitPartsInRange();
    SplitParseFour("+1", "2", "3", "4");
    RegexFour("+1", "2", "3", "4");
  }

  /** The pattern is strictly stricter than the parser. */
  lemma RegexStrictlyStricter()
    ensures forall ip :: RegexValid(ip) ==> SplitParseValid(ip)
    ensures exists ip :: SplitParseValid(ip) && !RegexValid(ip)
  {
    forall ip | RegexValid(ip)
      ensures SplitParseValid(ip)
    {
      RegexImpliesSplitParse(ip);
    }
    PaddedPartOnlyParses();
  }

  /** Three or five parts are rejected before any part is parsed. */
  lemma WrongPartCountRejected()
    ensures !SplitParseValid("1.2.3") && !SplitParseValid("1.2.3.4.5")
  {
    SplitLength("1.2.3", '.');
    SplitLength("1.2.3.4.5", '.');
  }

  /** A trailing dot leaves an empty fourth part, whose parse throws. */
  lemma TrailingDotRejected()
    ensures !SplitParseValid(Address("1", "2", "3", ""))
  {
    SplitParseFour("1", "2", "3", "");
  }

  /** Leading zeros are read by value: "001" is the part 1. */
  lemma LeadingZerosByValue()
    ensures ParseInt("001") == Some(1)
    ensures SplitParseValid(Address("001", "002", "003", "004")) && RegexValid(Address("001", "002", "003", "004"))
  {
    assert DigitsValue("001") == 1 by {
      LeadingZeroIgnored("1");
      assert "01" == ['0'] + "1";
      LeadingZeroIgnored("01");
      assert "001" == ['0'] + "01";
    }
    ParseUnsigned("001");
    assert Octet("001") && Octet("002") && Octet("003") && Octet("004");
    RegexFour("001", "002", "003", "004");
    RegexImpliesSplitParse(Address("001", "002", "003", "004"));
  }
}
