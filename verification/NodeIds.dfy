/** Printing and parsing of node ids (utils/utils.go), and the numbered names of the document
    store: digits, most significant first, in a base from 2 to 16. */
module NodeIds {
  import opened Basics
  import opened MeshNetwork

  const DIGITS := "0123456789ABCDEF"

  // ---------------------------------------------------------------- digits

  /** The digits of n without leading zeros; none for 0. */
  function Digits(n: nat, base: nat): (s: string)
    requires 2 <= base <= 16
    decreases n
  {
    if n == 0 then "" else Digits(n / base, base) + [DIGITS[n % base]]
  }

  function Print(n: nat, base: nat): (s: string)
    requires 2 <= base <= 16
    ensures s != ""
  {
    if n == 0 then "0" else Digits(n, base)
  }

  function DigitValue(c: char): nat {
    if '0' <= c <= '9' then c as int - '0' as int
    else if 'a' <= c <= 'z' then c as int - 'a' as int + 10
    else if 'A' <= c <= 'Z' then c as int - 'A' as int + 10
    else 36
  }

  /** What a row of digits stands for; Err when one of them is no digit of the base. */
  function ParseDigits(s: string, base: nat): Result<nat> {
    if s == "" then Ok(0)
    else
      var n := |s| - 1;
      match ParseDigits(s[..n], base)
      case Err => Err
      case Ok(v) => if DigitValue(s[n]) < base then Ok(v * base + DigitValue(s[n])) else Err
  }

  lemma ParseSnoc(s: string, c: char, base: nat)
    requires ParseDigits(s, base).Ok? && DigitValue(c) < base
    ensures ParseDigits(s + [c], base) == Ok(ParseDigits(s, base).value * base + DigitValue(c))
  {
    assert (s + [c])[..|s|] == s;
  }

  lemma Split(n: nat, base: nat)
    requires n > 0 && base >= 2
    ensures n / base < n && n % base < base && n / base * base + n % base == n
  {
  }

  lemma {:induction false} DigitsParse(n: nat, base: nat)
    requires 2 <= base <= 16
    ensures ParseDigits(Digits(n, base), base) == Ok(n)
    decreases n
  {
    hide ParseDigits, DigitValue;
    assert ParseDigits("", base) == Ok(0) by { NothingParses(base); }
    if n > 0 {
      Split(n, base);
      var q, r := n / base, n % base;
      DigitsParse(q, base);
      DigitOfValue(r);
      ParseSnoc(Digits(q, base), DIGITS[r], base);
    }
  }

  lemma NothingParses(base: nat)
    ensures ParseDigits("", base) == Ok(0)
  {
  }

  lemma DigitOfValue(d: nat)
    requires d < 16
    ensures DigitValue(DIGITS[d]) == d
  {
  }

  /** Leading zeros change nothing. */
  lemma {:induction false} ZerosParse(k: nat, s: string, base: nat)
    requires base > 0
    ensures ParseDigits(Zeros(k) + s, base) == ParseDigits(s, base)
    decreases |s|, k
  {
    if s == "" {
      assert Zeros(k) + s == Zeros(k);
      if k > 0 {
        assert Zeros(k)[..k - 1] == Zeros(k - 1) + "";
        ZerosParse(k - 1, "", base);
      }
    } else {
      var n := |s| - 1;
      assert (Zeros(k) + s)[..k + n] == Zeros(k) + s[..n];
      ZerosParse(k, s[..n], base);
    }
  }

  function Zeros(k: nat): (s: string)
    ensures |s| == k
  {
    seq(k, _ => '0')
  }

  lemma PrintParses(n: nat, base: nat)
    requires 2 <= base <= 16
    ensures ParseDigits(Print(n, base), base) == Ok(n)
  {
    DigitsParse(n, base);
    if n == 0 {
      assert ParseDigits("0"[..0], base) == Ok(0);
    }
  }

  lemma PrintIsInjective(m: nat, n: nat, base: nat)
    requires 2 <= base <= 16 && Print(m, base) == Print(n, base)
    ensures m == n
  {
    PrintParses(m, base);
    PrintParses(n, base);
  }

  /** A name made of a prefix and a decimal number: d0, g0, n0, e0 and so on. */
  function Name(prefix: string, n: nat): string { prefix + Print(n, 10) }

  lemma NamesDiffer(prefix: string, m: nat, n: nat)
    requires Name(prefix, m) == Name(prefix, n)
    ensures m == n
  {
    assert Name(prefix, m)[|prefix|..] == Print(m, 10) && Name(prefix, n)[|prefix|..] == Print(n, 10);
    PrintIsInjective(m, n, 10);
  }

  // ---------------------------------------------------------------- node ids

  // At least width characters, filled up with zeros.
  function Padded(s: string, width: nat): string {
    if |s| < width then Zeros(width - |s|) + s else s
  }

  /** The verb %06X: the sign counts towards the width and comes before the zeros. */
  function Hex6(id: Id): string {
    if id >= 0 then Padded(Print(id, 16), 6) else "-" + Padded(Print(-(id as int), 16), 5)
  }

  function FmtNodeId(id: Id): string {
    if id == 0 then "" else "N" + Hex6(id)
  }

  // strings.Replace(s, "N", "0x", 1).
  function ReplaceN(s: string): string {
    if s == "" then "" else if s[0] == 'N' then "0x" + s[1..] else [s[0]] + ReplaceN(s[1..])
  }

  /** strconv.ParseInt with base 0, for texts without underscores: a sign, then a number whose
      prefix tells its base; the value must fit in the given number of bits. */
  function ParseInt(s: string, limit: nat): (r: Result<int>)
    requires limit > 0
    ensures r.Ok? ==> -(limit as int) <= r.value < limit
  {
    if s == "" then Err
    else
      var negative := s[0] == '-';
      var u := if negative || s[0] == '+' then s[1..] else s;
      if u == "" then Err
      else
        match ParseUint(u)
        case Err => Err
        case Ok(v) =>
          if negative then (if v <= limit then Ok(-(v as int)) else Err) else if v < limit then Ok(v) else Err
  }

  function ParseUint(u: string): Result<nat>
    requires u != ""
  {
    if u[0] != '0' then ParseDigits(u, 10)
    else if |u| >= 3 && (u[1] == 'b' || u[1] == 'B') then ParseDigits(u[2..], 2)
    else if |u| >= 3 && (u[1] == 'o' || u[1] == 'O') then ParseDigits(u[2..], 8)
    else if |u| >= 3 && (u[1] == 'x' || u[1] == 'X') then ParseDigits(u[2..], 16)
    else ParseDigits(u[1..], 8)
  }

  function ParseNodeId(s: string): (r: Result<int>)
    ensures r.Ok? ==> -0x8000_0000 <= r.value < 0x8000_0000
  {
    if |s| < 1 then Err else ParseInt(ReplaceN(s), 0x8000_0000)
  }

  lemma PaddedParses(n: nat, width: nat)
    ensures ParseDigits(Padded(Print(n, 16), width), 16) == Ok(n) && Padded(Print(n, 16), width) != ""
  {
    PrintParses(n, 16);
    var s := Print(n, 16);
    if |s| < width {
      ZerosParse(width - |s|, s, 16);
    }
  }

  // A character that is no digit spoils the row it is in.
  lemma {:induction false} SpoiltRow(s: string, i: nat, base: nat)
    requires i < |s| && DigitValue(s[i]) >= base
    ensures ParseDigits(s, base) == Err
    decreases |s|
  {
    var n := |s| - 1;
    if i < n { SpoiltRow(s[..n], i, base); }
  }

  lemma HexText(id: Id)
    requires id != 0
    ensures Hex6(id) != "" && ParseUint("0x" + Hex6(id)) == ParseDigits(Hex6(id), 16)
    ensures ReplaceN(FmtNodeId(id)) == "0x" + Hex6(id)
  {
    var h := Hex6(id);
    if id > 0 { PaddedParses(id, 6); }
    hide Hex6, ParseDigits;
    assert ("0x" + h)[2..] == h && ("N" + h)[1..] == h;
  }

  /** A printed node id parses back to itself exactly for the ids from 1 to 2^31 - 1; every
      other id prints as something that does not parse at all. */
  lemma NodeIdRoundTrip(id: Id)
    ensures if 1 <= id < 0x8000_0000 then ParseNodeId(FmtNodeId(id)) == Ok(id)
            else ParseNodeId(FmtNodeId(id)) == Err
  {
    if id != 0 {
      HexText(id);
      if id > 0 {
        PaddedParses(id, 6);
      } else {
        assert Hex6(id)[0] == '-';
        SpoiltRow(Hex6(id), 0, 16);
      }
      hide Hex6, ParseDigits, ReplaceN, ParseUint, FmtNodeId, Padded, Print;
      assert FmtNodeId(id) != "" by { FmtIsNotEmpty(id); }
      assert ("0x" + Hex6(id))[0] == '0';
    }
  }

  lemma FmtIsNotEmpty(id: Id)
    requires id != 0
    ensures FmtNodeId(id) != ""
  {
  }

  lemma NodeIdsDiffer(a: Id, b: Id)
    requires 1 <= a < 0x8000_0000 && 1 <= b < 0x8000_0000 && FmtNodeId(a) == FmtNodeId(b)
    ensures a == b
  {
    NodeIdRoundTrip(a);
    NodeIdRoundTrip(b);
  }

  /** The text of a positive id: an N and at least six characters, all of them digits or capital
      letters up to F, and more than six only if the first of them is not 0. */
  lemma FmtNodeIdIs(id: Id)
    requires id > 0
    ensures var s := FmtNodeId(id);
            && |s| >= 7 && s[0] == 'N' && (|s| > 7 ==> s[1] != '0')
            && forall i :: 0 < i < |s| ==> '0' <= s[i] <= '9' || 'A' <= s[i] <= 'F'
  {
    DigitsLook(id, 16);
    var t := Padded(Print(id, 16), 6);
    assert FmtNodeId(id) == "N" + t;
  }

  /** A negative id has its sign behind the N, and it counts among the six characters. */
  lemma NegativeIdIs(id: Id)
    requires id < 0
    ensures var s := FmtNodeId(id);
            && |s| >= 7 && s[0] == 'N' && s[1] == '-' && (|s| > 7 ==> s[2] != '0')
            && ParseDigits(s[2..], 16) == Ok(-(id as int))
  {
    hide Padded, Print, ParseDigits;
    var t := Padded(Print(-(id as int), 16), 5);
    NegativeText(-(id as int));
    PaddedParses(-(id as int), 5);
    assert FmtNodeId(id) == "N" + ("-" + t);
    assert ("N" + ("-" + t))[2..] == t;
  }

  lemma NegativeText(n: nat)
    requires n > 0
    ensures var t := Padded(Print(n, 16), 5); |t| >= 5 && (|t| > 5 ==> t[0] != '0')
  {
    DigitsLook(n, 16);
  }

  lemma {:induction false} DigitsLook(n: nat, base: nat)
    requires 2 <= base <= 16
    ensures var s := Digits(n, base);
            && (n > 0 ==> s != "" && s[0] != '0') && (base <= 10 ==> forall c :: c in s ==> '0' <= c <= '9')
            && forall i :: 0 <= i < |s| ==> '0' <= s[i] <= '9' || 'A' <= s[i] <= 'F'
    decreases n
  {
    if n > 0 {
      Split(n, base);
      DigitsLook(n / base, base);
    }
  }

  function Upper(c: char): char { if 'a' <= c <= 'z' then c - 'a' + 'A' else c }

  function UpperText(s: string): (u: string)
    ensures |u| == |s| && forall i :: 0 <= i < |s| ==> u[i] == Upper(s[i])
  {
    seq(|s|, i requires 0 <= i < |s| => Upper(s[i]))
  }

  /** Small letters are as good as capital ones. */
  lemma {:induction false} CaseDoesNotMatter(s: string, base: nat)
    ensures ParseDigits(UpperText(s), base) == ParseDigits(s, base)
    decreases |s|
  {
    if s != "" {
      var n := |s| - 1;
      assert UpperText(s)[..n] == UpperText(s[..n]);
      CaseDoesNotMatter(s[..n], base);
    }
  }

  // The base a letter behind a leading zero stands for.
  predicate IsPrefix(c: char, base: nat) {
    || ((c == 'b' || c == 'B') && base == 2) || ((c == 'o' || c == 'O') && base == 8)
    || ((c == 'x' || c == 'X') && base == 16)
  }

  /** Whatever base a number is printed in, with its prefix it parses back; a leading zero alone
      stands for base 8. */
  lemma UintReadsBack(n: nat, c: char, base: nat)
    requires n > 0 && IsPrefix(c, base)
    ensures ParseUint(Print(n, 10)) == ParseUint(['0', c] + Print(n, base)) == ParseUint(['0'] + Print(n, 8)) == Ok(n)
  {
    hide Digits, ParseDigits, DigitValue, Print;
    PrintParses(n, 10);
    PrintParses(n, 8);
    PrintParses(n, base);
    NoLeadingZero(n, 10);
    NoLeadingZero(n, 8);
    Behind(['0', c], Print(n, base));
    Behind(['0'], Print(n, 8));
  }

  lemma NoLeadingZero(n: nat, base: nat)
    requires n > 0 && 2 <= base <= 10
    ensures '1' <= Print(n, base)[0] <= '9'
  {
    DigitsLook(n, base);
    assert Digits(n, base)[0] in Digits(n, base);
  }

  lemma Behind(first: string, rest: string)
    ensures (first + rest)[|first|..] == rest
  {
  }

  /** And with a sign, if it fits. */
  lemma IntReadsBack(s: string, n: nat, limit: nat)
    requires s != "" && '0' <= s[0] <= '9' && ParseUint(s) == Ok(n) && limit > 0
    ensures ParseInt(s, limit) == ParseInt("+" + s, limit) == if n < limit then Ok(n) else Err
    ensures ParseInt("-" + s, limit) == if n <= limit then Ok(-(n as int)) else Err
  {
    hide ParseUint;
    Behind("+", s);
    Behind("-", s);
  }

  lemma OneDigitMore(n: nat, d: nat)
    requires d < 16 && n * 16 + d > 0
    ensures Digits(n * 16 + d, 16) == Digits(n, 16) + [DIGITS[d]]
  {
  }

  lemma IdText(id: Id)
    requires id > 0
    ensures FmtNodeId(id) == "N" + Padded(Digits(id, 16), 6)
  {
  }

  lemma PaddedText(s: string, zeros: string, width: nat)
    requires |zeros| + |s| == width && forall i :: 0 <= i < |zeros| ==> zeros[i] == '0'
    ensures Padded(s, width) == zeros + s
  {
    if zeros != "" {
      assert Zeros(|zeros|) == zeros;
    } else {
      assert zeros + s == s;
    }
  }

  /** Two ids and their texts, and a numbered name. */
  lemma SomeIds()
    ensures FmtNodeId(1) == "N000001" && FmtNodeId(16) == "N000010" && Name("n", 10) == "n10"
  {
    hide Digits, FmtNodeId, Padded, Name;
    TenthName();
    NoDigits();
    OneDigitMore(0, 1);
    OneDigitMore(1, 0);
    assert Digits(1, 16) == "1";
    assert Digits(16, 16) == "1" + "0" == "10";
    PaddedText("1", "00000", 6);
    PaddedText("10", "0000", 6);
    IdText(1);
    IdText(16);
    assert "N" + ("00000" + "1") == "N000001" && "N" + ("0000" + "10") == "N000010";
  }

  lemma TenthName()
    ensures Name("n", 10) == "n10"
  {
    hide Digits;
    TenIsTen();
    assert "n" + "10" == "n10";
  }

  lemma TenIsTen()
    ensures Digits(10, 10) == "10"
  {
    assert Digits(1, 10) == Digits(0, 10) + [DIGITS[1]];
    assert Digits(10, 10) == Digits(1, 10) + [DIGITS[0]];
  }

  lemma NoDigits()
    ensures Digits(0, 16) == ""
  {
  }
}
