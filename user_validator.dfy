/**
 * The validation rules for account identifiers and display names
 * (`UserValidator` in UserRepository.kt).
 *
 * Characters are taken to be ASCII: `isDigitsOnly` is read as '0'..'9',
 * `isLetterOrDigit` as 'A'..'Z', 'a'..'z', '0'..'9', and `trim` removes the
 * ASCII characters that `Char.isWhitespace` accepts.
 */
module UserValidator {

  /** Identifiers have eight digits, so every key lies below this bound. */
  const IdLimit: int := 100_000_000

  // ---------------------------------------------------------------------
  // Characters
  // ---------------------------------------------------------------------

  predicate IsDigit(c: char) { '0' <= c <= '9' }

  predicate IsAsciiLetter(c: char) { 'A' <= c <= 'Z' || 'a' <= c <= 'z' }

  /** The characters `normalizeUsername` keeps and the username pattern `[A-Za-z0-9_]` admits. */
  predicate IsNameChar(c: char) { IsAsciiLetter(c) || IsDigit(c) || c == '_' }

  /** `Char.isWhitespace` restricted to ASCII: tab to carriage return, the four separators 0x1C-0x1F, and space. */
  predicate IsWhitespace(c: char) {
    var n := c as int;
    n == 32 || 9 <= n <= 13 || 28 <= n <= 31
  }

  predicate AllDigits(s: string) { forall i :: 0 <= i < |s| ==> IsDigit(s[i]) }

  predicate AllNameChars(s: string) { forall i :: 0 <= i < |s| ==> IsNameChar(s[i]) }

  // ---------------------------------------------------------------------
  // Identifiers and keys
  // ---------------------------------------------------------------------

  /** `isValidUserId`: exactly eight characters, all of them digits. */
  predicate IsValidUserId(id: string) { |id| == 8 && AllDigits(id) }

  function DigitValue(c: char): (d: nat)
    requires IsDigit(c)
    ensures d < 10
  {
    c as int - '0' as int
  }

  function DigitChar(d: nat): (c: char)
    requires d < 10
    ensures IsDigit(c) && DigitValue(c) == d
  {
    (d + '0' as int) as char
  }

  function Pow10(n: nat): nat
  {
    if n == 0 then 1 else 10 * Pow10(n - 1)
  }

  /** The number a string of decimal digits denotes, most significant digit first. */
  function Value(s: string): nat
    requires AllDigits(s)
  {
    if s == [] then 0 else 10 * Value(s[..|s| - 1]) + DigitValue(s[|s| - 1])
  }

  /** The last `width` decimal digits of `n`, zero-padded on the left. */
  function Digits(n: nat, width: nat): (s: string)
    ensures |s| == width && AllDigits(s)
  {
    if width == 0 then [] else Digits(n / 10, width - 1) + [DigitChar(n % 10)]
  }

  /** Writing a number that fits in `width` digits and reading it back gives the number. */
  lemma {:induction false} DigitsValue(n: nat, width: nat)
    requires n < Pow10(width)
    ensures Value(Digits(n, width)) == n
  {
    if width > 0 {
      var s := Digits(n, width);
      DigitsValue(n / 10, width - 1);
      assert s[..|s| - 1] == Digits(n / 10, width - 1);
    }
  }

  /** Reading a digit string and writing it back with the same width gives the string. */
  lemma {:induction false} ValueDigits(s: string)
    requires AllDigits(s)
    ensures Value(s) < Pow10(|s|)
    ensures Digits(Value(s), |s|) == s
  {
    if s != [] {
      var p := s[..|s| - 1];
      var d := DigitValue(s[|s| - 1]);
      ValueDigits(p);
      var v := Value(s);
      assert v == 10 * Value(p) + d;
      assert v / 10 == Value(p) && v % 10 == d;
      assert s == p + [s[|s| - 1]];
    }
  }

  /**
   * `asUserKeyOrZero`: the numeric value of a valid identifier, 0 otherwise.
   * An eight-digit string always fits in an `Int`, so `toIntOrNull` never
   * yields null here.
   */
  function KeyOrZero(id: string): (k: nat)
    ensures k < IdLimit
    ensures k != 0 ==> IsValidUserId(id)
  {
    if IsValidUserId(id) then
      ValueDigits(id);
      assert Pow10(8) == IdLimit;
      Value(id)
    else 0
  }

  /** `"%08d".format(k)` for a key that fits in eight digits; reading it back with `KeyOrZero` gives `k`. */
  function Format8(k: nat): (id: string)
    requires k < IdLimit
    ensures IsValidUserId(id)
    ensures KeyOrZero(id) == k
  {
    assert Pow10(8) == IdLimit;
    DigitsValue(k, 8);
    Digits(k, 8)
  }

  /** A valid identifier is the zero-padded form of its own key. */
  lemma ParseRoundTrip(id: string)
    requires IsValidUserId(id)
    ensures Format8(KeyOrZero(id)) == id
  {
    ValueDigits(id);
  }

  /** Two formatted keys are the same name exactly when the keys are equal, and a name is `Format8(k)` exactly when its key is `k`. */
  lemma FormatMatchesName(k: nat, name: string)
    requires 1 <= k < IdLimit
    ensures Format8(k) == name <==> KeyOrZero(name) == k
  {
    if KeyOrZero(name) == k {
      ParseRoundTrip(name);
    }
  }

  // ---------------------------------------------------------------------
  // User names
  // ---------------------------------------------------------------------

  /** `validateUsername`: the whole name matches `[A-Za-z0-9_]{3,16}`. */
  predicate ValidUsername(s: string) { 3 <= |s| <= 16 && AllNameChars(s) }

  /** `filter { it.isLetterOrDigit() || it == '_' }`. */
  function FilterNameChars(s: string): (r: string)
    ensures |r| <= |s| && AllNameChars(r)
  {
    if s == [] then []
    else (if IsNameChar(s[0]) then [s[0]] else []) + FilterNameChars(s[1..])
  }

  /** `take(n)`: the first `n` characters, or the whole string when it is shorter. */
  function Take(s: string, n: nat): (r: string)
    ensures |r| == if |s| <= n then |s| else n
    ensures r <= s
  {
    if |s| <= n then s else s[..n]
  }

  /**
   * `normalizeUsername`: the first 16 name characters of `raw` if they form a
   * valid name, else `fallback` cut to 16.
   */
  function NormalizeUsername(raw: string, fallback: string): string
  {
    var cleaned := Take(FilterNameChars(raw), 16);
    if ValidUsername(cleaned) then cleaned else Take(fallback, 16)
  }

  /** Filtering keeps a string made only of name characters as it is. */
  lemma {:induction false} FilterKeepsNameChars(s: string)
    requires AllNameChars(s)
    ensures FilterNameChars(s) == s
  {
    if s != [] {
      FilterKeepsNameChars(s[1..]);
      assert s == [s[0]] + s[1..];
    }
  }

  /** Filtering distributes over concatenation. */
  lemma {:induction false} FilterAppend(a: string, b: string)
    ensures FilterNameChars(a + b) == FilterNameChars(a) + FilterNameChars(b)
  {
    if a == [] {
      assert a + b == b;
    } else {
      var ab := a + b;
      var head := if IsNameChar(a[0]) then [a[0]] else [];
      assert ab[0] == a[0];
      assert ab[1..] == a[1..] + b;
      FilterAppend(a[1..], b);
      calc {
        FilterNameChars(ab);
        head + FilterNameChars(ab[1..]);
        head + (FilterNameChars(a[1..]) + FilterNameChars(b));
        (head + FilterNameChars(a[1..])) + FilterNameChars(b);
        FilterNameChars(a) + FilterNameChars(b);
      }
    }
  }

  /**
   * The result of normalisation: the first 16 name characters of `raw` when
   * `raw` holds at least three of them, and `fallback` cut to 16 otherwise;
   * either way a valid name or the cut fallback.
   */
  lemma NormalizeResult(raw: string, fallback: string)
    ensures var r := NormalizeUsername(raw, fallback);
            && (|FilterNameChars(raw)| >= 3 ==> r == Take(FilterNameChars(raw), 16) && ValidUsername(r))
            && (|FilterNameChars(raw)| < 3 ==> r == Take(fallback, 16))
            && (ValidUsername(r) || r == Take(fallback, 16))
  {
  }

  /** A name that is already valid is returned unchanged, whatever the fallback. */
  lemma NormalizeKeepsValid(raw: string, fallback: string)
    requires ValidUsername(raw)
    ensures NormalizeUsername(raw, fallback) == raw
  {
    FilterKeepsNameChars(raw);
  }

  /** Normalising twice is normalising once, provided the cut fallback is itself a valid name. */
  lemma NormalizeIdempotent(raw: string, fallback: string)
    requires ValidUsername(Take(fallback, 16))
    ensures var r := NormalizeUsername(raw, fallback);
            NormalizeUsername(r, fallback) == r
  {
    var r := NormalizeUsername(raw, fallback);
    NormalizeResult(raw, fallback);
    NormalizeKeepsValid(r, fallback);
  }

  /**
   * The exact condition: normalisation with `fallback` is idempotent on every
   * input exactly when normalising the cut fallback gives it back.
   */
  lemma NormalizeIdempotentIff(fallback: string)
    ensures (forall raw :: NormalizeUsername(NormalizeUsername(raw, fallback), fallback) == NormalizeUsername(raw, fallback))
        <==> NormalizeUsername(Take(fallback, 16), fallback) == Take(fallback, 16)
  {
    var cut := Take(fallback, 16);
    if NormalizeUsername(cut, fallback) == cut {
      forall raw ensures NormalizeUsername(NormalizeUsername(raw, fallback), fallback) == NormalizeUsername(raw, fallback) {
        var r := NormalizeUsername(raw, fallback);
        NormalizeResult(raw, fallback);
        if ValidUsername(r) {
          NormalizeKeepsValid(r, fallback);
        }
      }
    } else {
      assert FilterNameChars("") == "";
      assert NormalizeUsername("", fallback) == cut;
    }
  }

  /** Without a valid fallback normalisation is not idempotent: `""` with fallback `"a-bc"` gives `"a-bc"`, which normalises to `"abc"`. */
  lemma NormalizeNotIdempotentWithInvalidFallback()
    ensures NormalizeUsername("", "a-bc") == "a-bc"
    ensures NormalizeUsername("a-bc", "a-bc") == "abc"
  {
  }

  // ---------------------------------------------------------------------
  // Trimming
  // ---------------------------------------------------------------------

  function TrimStart(s: string): string
  {
    if s != [] && IsWhitespace(s[0]) then TrimStart(s[1..]) else s
  }

  function TrimEnd(s: string): string
  {
    if s != [] && IsWhitespace(s[|s| - 1]) then TrimEnd(s[..|s| - 1]) else s
  }

  /** `String.trim()`: leading and trailing whitespace removed. */
  function Trim(s: string): string
  {
    TrimEnd(TrimStart(s))
  }

  lemma {:induction false} FilterTrimStart(s: string)
    ensures FilterNameChars(TrimStart(s)) == FilterNameChars(s)
  {
    if s != [] && IsWhitespace(s[0]) {
      FilterTrimStart(s[1..]);
    }
  }

  lemma {:induction false} FilterTrimEnd(s: string)
    ensures FilterNameChars(TrimEnd(s)) == FilterNameChars(s)
  {
    if s != [] && IsWhitespace(s[|s| - 1]) {
      var p := s[..|s| - 1];
      FilterTrimEnd(p);
      assert s == p + [s[|s| - 1]];
      FilterAppend(p, [s[|s| - 1]]);
    }
  }

  /** Trimming removes only characters that filtering drops anyway, so the filtered text is the same. */
  lemma FilterTrim(s: string)
    ensures FilterNameChars(Trim(s)) == FilterNameChars(s)
  {
    FilterTrimStart(s);
    FilterTrimEnd(TrimStart(s));
  }

  /** Normalising trimmed text gives the same name as normalising the text itself. */
  lemma NormalizeIgnoresTrim(raw: string, fallback: string)
    ensures NormalizeUsername(Trim(raw), fallback) == NormalizeUsername(raw, fallback)
  {
    FilterTrim(raw);
  }
}
