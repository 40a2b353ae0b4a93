/** The string and number helpers of the operand code: searching, trimming, printing and reading
    numbers in the notations the decompiler uses. */
module Text {
  datatype Option<+T> = None | Some(value: T)

  // ---------------------------------------------------------------- searching

  /** The first position of `c`, or -1. */
  function IndexByte(s: string, c: char): (r: int)
    ensures -1 <= r < |s|
    ensures r >= 0 ==> s[r] == c && c !in s[..r]
    ensures r < 0 ==> c !in s
  {
    if s == [] then -1
    else if s[0] == c then 0
    else
      var r := IndexByte(s[1..], c);
      assert r >= 0 ==> s[..r + 1] == [s[0]] + s[1..][..r];
      assert s == [s[0]] + s[1..];
      if r < 0 then -1 else r + 1
  }

  /** The last position of `c`, or -1. */
  function LastIndexByte(s: string, c: char): (r: int)
    ensures -1 <= r < |s|
    ensures r >= 0 ==> s[r] == c && c !in s[r + 1..]
    ensures r < 0 ==> c !in s
  {
    if s == [] then -1
    else if s[|s| - 1] == c then |s| - 1
    else
      var r := LastIndexByte(s[..|s| - 1], c);
      assert r >= 0 ==> s[r + 1..] == s[..|s| - 1][r + 1..] + [s[|s| - 1]];
      assert s == s[..|s| - 1] + [s[|s| - 1]];
      r
  }

  lemma LastIndexUnique(s: string, c: char, r: int)
    requires 0 <= r < |s| && s[r] == c && c !in s[r + 1..]
    ensures LastIndexByte(s, c) == r
  {
    assert s[r] in s;
  }

  lemma FirstIndexUnique(s: string, c: char, r: int)
    requires 0 <= r < |s| && s[r] == c && c !in s[..r]
    ensures IndexByte(s, c) == r
  {
    assert s[r] in s;
  }

  predicate HasPrefix(s: string, p: string) {
    |p| <= |s| && s[..|p|] == p
  }

  /** `p` stands in `s` at position `i`. */
  predicate OccursAt(s: string, p: string, i: int) {
    0 <= i && i + |p| <= |s| && s[i..i + |p|] == p
  }

  /** The first position of the substring `p` at or after `i`, or -1. */
  function IndexFrom(s: string, p: string, i: nat): (r: int)
    requires i <= |s| && p != []
    ensures r >= 0 ==> i <= r && OccursAt(s, p, r) && forall k :: i <= k < r ==> !OccursAt(s, p, k)
    ensures r < 0 ==> r == -1 && forall k :: i <= k ==> !OccursAt(s, p, k)
    decreases |s| - i
  {
    if OccursAt(s, p, i) then i
    else if i == |s| then -1
    else IndexFrom(s, p, i + 1)
  }

  function Index(s: string, p: string): int
    requires p != []
  {
    IndexFrom(s, p, 0)
  }

  // ---------------------------------------------------------------- trimming

  predicate IsSpace(c: char) {
    c == ' ' || c == '\t' || c == '\n' || c == '\r' || c == 0x0B as char || c == 0x0C as char || c == 0x85 as char
      || c == 0xA0 as char
  }

  function TrimLeft(s: string): string {
    if s != [] && IsSpace(s[0]) then TrimLeft(s[1..]) else s
  }

  function TrimRight(s: string): string {
    if s != [] && IsSpace(s[|s| - 1]) then TrimRight(s[..|s| - 1]) else s
  }

  function TrimSpace(s: string): string {
    TrimRight(TrimLeft(s))
  }

  /** Nothing to trim at either end. */
  predicate Trimmed(s: string) {
    s == [] || (!IsSpace(s[0]) && !IsSpace(s[|s| - 1]))
  }

  lemma TrimShortens(s: string)
    ensures |TrimRight(s)| <= |s| && |TrimLeft(s)| <= |s|
  {
  }

  /** Trimming leaves a string alone exactly when there is nothing to trim. */
  lemma TrimmedExactly(s: string)
    ensures TrimSpace(s) == s <==> Trimmed(s)
  {
    if s != [] {
      TrimShortens(TrimLeft(s));
      TrimShortens(s);
      if IsSpace(s[0]) {
        TrimShortens(s[1..]);
      } else if IsSpace(s[|s| - 1]) {
        TrimShortens(s[..|s| - 1]);
      }
    }
  }

  // ---------------------------------------------------------------- numbers

  function DigitChar(d: nat): char
    requires d < 16
  {
    if d < 10 then '0' + d as char else 'a' + (d - 10) as char
  }

  /** The value of a digit in any base up to 36, or -1. */
  function DigitValue(c: char): int {
    if '0' <= c <= '9' then c as int - '0' as int
    else if 'a' <= c <= 'z' then c as int - 'a' as int + 10
    else if 'A' <= c <= 'Z' then c as int - 'A' as int + 10
    else -1
  }

  lemma DivMod(n: nat, b: nat)
    requires (b == 10 || b == 16) && b <= n
    ensures 1 <= n / b < n && 0 <= n % b < b && (n / b) * b + n % b == n
  {
    if b == 10 {
    } else {
    }
  }

  /** `n` in base `b`, without leading zeros. */
  function Digits(n: nat, b: nat): (s: string)
    requires b == 10 || b == 16
    ensures s != []
    decreases n
  {
    if n < b then [DigitChar(n)]
    else
      DivMod(n, b);
      Digits(n / b, b) + [DigitChar(n % b)]
  }

  lemma DigitCharValue(d: nat)
    requires d < 16
    ensures DigitValue(DigitChar(d)) == d
    ensures d < 10 ==> '0' <= DigitChar(d) <= '9'
    ensures DigitChar(d) == '0' ==> d == 0
  {
  }

  lemma {:induction false} NoLeadingZero(n: nat, b: nat)
    requires b == 10 || b == 16
    ensures Digits(n, b)[0] == '0' ==> n == 0 && Digits(n, b) == "0"
    decreases n
  {
    if n < b {
      DigitCharValue(n);
    } else {
      DivMod(n, b);
      NoLeadingZero(n / b, b);
    }
  }

  /** Different numbers have different decimal digits. */
  lemma {:induction false} DigitsInjective(m: nat, n: nat)
    requires Digits(m, 10) == Digits(n, 10)
    ensures m == n
    decreases m + n
  {
    var s, t := Digits(m, 10), Digits(n, 10);
    assert s[|s| - 1] == t[|t| - 1] && s[..|s| - 1] == t[..|t| - 1];
    DigitCharValue(m % 10);
    DigitCharValue(n % 10);
    if m >= 10 && n >= 10 {
      assert s[..|s| - 1] == Digits(m / 10, 10) && t[..|t| - 1] == Digits(n / 10, 10);
      DigitsInjective(m / 10, n / 10);
    } else {
      assert m < 10 ==> |s| == 1;
      assert n < 10 ==> |t| == 1;
    }
  }

  const MAX_UINT64: nat := 0xFFFF_FFFF_FFFF_FFFF
  const TWO63: nat := 0x8000_0000_0000_0000

  /** Read digits in base `b`; fails on a foreign character or above 64 bits. */
  function ReadDigits(s: string, b: nat): (r: Option<nat>)
    requires 2 <= b <= 36
    ensures r.Some? ==> r.value <= MAX_UINT64
  {
    if s == [] then Some(0)
    else
      var high := ReadDigits(s[..|s| - 1], b);
      var d := DigitValue(s[|s| - 1]);
      if high.None? || d < 0 || d >= b || high.value * b + d > MAX_UINT64 then None
      else Some(high.value * b + d)
  }

  predicate HasBase(s: string, lower: char, upper: char) {
    |s| >= 3 && (s[1] == lower || s[1] == upper)
  }

  /** An unsigned 64-bit number with the base taken from its prefix. */
  function ParseUint(s: string): (r: Option<nat>)
    ensures r.Some? ==> r.value <= MAX_UINT64
  {
    if s == [] then None
    else if s[0] != '0' then ReadDigits(s, 10)
    else if HasBase(s, 'b', 'B') then ReadDigits(s[2..], 2)
    else if HasBase(s, 'o', 'O') then ReadDigits(s[2..], 8)
    else if HasBase(s, 'x', 'X') then ReadDigits(s[2..], 16)
    else ReadDigits(s[1..], 8)
  }

  /** A signed 64-bit number read by `unsigned` after an optional sign. */
  function Signed(s: string, unsigned: string -> Option<nat>): Option<int> {
    if s == [] then None
    else
      var negative := s[0] == '-';
      var u := unsigned(if s[0] == '+' || s[0] == '-' then s[1..] else s);
      if u.None? then None
      else if !negative && u.value >= TWO63 then None
      else if negative && u.value > TWO63 then None
      else Some(if negative then 0 - u.value else u.value)
  }

  function ParseInt(s: string): Option<int> {
    Signed(s, ParseUint)
  }

  function ReadDecimal(s: string): Option<nat> {
    if s == [] then None else ReadDigits(s, 10)
  }

  function Atoi(s: string): Option<int> {
    Signed(s, ReadDecimal)
  }

  function PrintInt(n: int): (s: string)
    ensures s != []
    ensures forall i :: 0 <= i < |s| ==> s[i] == '-' || '0' <= s[i] <= '9'
  {
    if n < 0 then
      DecimalChars(-n);
      "-" + Digits(-n, 10)
    else
      DecimalChars(n);
      Digits(n, 10)
  }

  lemma {:induction false} DecimalChars(n: nat)
    ensures forall i :: 0 <= i < |Digits(n, 10)| ==> '0' <= Digits(n, 10)[i] <= '9'
    decreases n
  {
    if n < 10 {
      DigitCharValue(n);
    } else {
      DecimalChars(n / 10);
      DigitCharValue(n % 10);
    }
  }

  predicate IsInt64(n: int) {
    0 - TWO63 <= n < TWO63
  }

  /** Reading the digits of a number gives it back, in decimal and in hexadecimal. */
  lemma {:induction false} ReadDigitsOfPrinted(n: nat, b: nat)
    requires (b == 10 || b == 16) && n <= MAX_UINT64
    ensures ReadDigits(Digits(n, b), b) == Some(n)
    decreases n
  {
    var s := Digits(n, b);
    if n < b {
      assert s[..|s| - 1] == [];
      DigitCharValue(n);
    } else {
      DivMod(n, b);
      ReadDigitsOfPrinted(n / b, b);
      assert s[..|s| - 1] == Digits(n / b, b);
      DigitCharValue(n % b);
    }
  }

  lemma ParseUintOfDecimal(n: nat)
    requires n <= MAX_UINT64
    ensures ParseUint(Digits(n, 10)) == Some(n)
  {
    ReadDigitsOfPrinted(n, 10);
    DecimalChars(n);
    NoLeadingZero(n, 10);
    if Digits(n, 10)[0] == '0' {
      assert ReadDigits("0"[1..], 8) == Some(0);
    }
  }

  lemma ParseUintOfHex(n: nat)
    requires n <= MAX_UINT64
    ensures ParseUint("0x" + Digits(n, 16)) == Some(n)
  {
    ReadDigitsOfPrinted(n, 16);
    var s := "0x" + Digits(n, 16);
    assert s[2..] == Digits(n, 16);
    assert s[0] == '0' && s[1] == 'x';
  }

  /** Signed numbers survive printing and reading, with and without a base prefix in the reader. */
  lemma ParseIntOfPrinted(n: int)
    requires IsInt64(n)
    ensures ParseInt(PrintInt(n)) == Some(n) && Atoi(PrintInt(n)) == Some(n)
  {
    var u: nat := if n < 0 then -n else n;
    ParseUintOfDecimal(u);
    ReadDigitsOfPrinted(u, 10);
    DecimalChars(u);
    if n < 0 {
      assert PrintInt(n)[1..] == Digits(u, 10);
    }
  }

  /** Small numbers print in decimal, large ones in hexadecimal. */
  function FmtHex(n: nat): string {
    if n >= 0x10000 then "0x" + Digits(n, 16) else Digits(n, 10)
  }

  function ParseImmediate(imm: string): nat {
    var s := if HasPrefix(imm, "$") then imm[1..] else imm;
    var val := ParseUint(s);
    if val.Some? then val.value else 0
  }

  /** Every 64-bit number survives printing and reading as an immediate, with or without the `$`. */
  lemma ParseImmediateOfFmtHex(n: nat)
    requires n <= MAX_UINT64
    ensures ParseImmediate(FmtHex(n)) == n && ParseImmediate("$" + FmtHex(n)) == n
  {
    hide ParseUint, Digits;
    if n >= 0x10000 {
      ParseUintOfHex(n);
    } else {
      ParseUintOfDecimal(n);
      DecimalChars(n);
    }
    assert FmtHex(n)[0] != '$';
    assert ("$" + FmtHex(n))[1..] == FmtHex(n);
    assert ("$" + FmtHex(n))[..1] == "$";
  }

  // ---------------------------------------------------------------- sets of names

  /** A name that a map of flags has set. */
  predicate IsMarked(flags: map<string, bool>, name: string) {
    name in flags && flags[name]
  }
}
