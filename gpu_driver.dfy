/**
 * The renderer's two GPU driver-string parsers: the Adreno model number read
 * from an adapter name, and the Mali driver version read from an adapter's
 * driver-info string.  The adapter lookup becomes the two strings `name` and
 * `driverInfo`; the `cfg!(target_os = "android")` guard becomes the flag
 * `onAndroid`.  Strings are sequences of characters; every delimiter the
 * parsers look for is ASCII, so character indices play the part of Rust's
 * byte offsets.
 */
module GpuDriver {
  import opened Wrappers

  /** Rust's `u32`: the values below 2^32. */
  const U32_LIMIT: int := 0x1_0000_0000
  type U32 = x: int | 0 <= x < U32_LIMIT

  const ADRENO_PREFIX: string := "Adreno (TM) "
  const MALI_NAME: string := "Mali"
  const VERSION_MARKER: string := "v1.r"
  const VERSION_END: string := "p"

  // ---------------------------------------------------------------------
  // Digits and their decimal value (the reference definition)
  // ---------------------------------------------------------------------

  /** `char::to_digit(10)` succeeds exactly on the ASCII digits. */
  predicate IsDigit(c: char) {
    '0' <= c <= '9'
  }

  function DigitValue(c: char): (d: nat)
    requires IsDigit(c)
    ensures d < 10
  {
    c as int - '0' as int
  }

  predicate AllDigits(s: string) {
    forall i :: 0 <= i < |s| ==> IsDigit(s[i])
  }

  /** The number a digit string denotes, most significant digit first. */
  function Decimal(s: string): nat
    requires AllDigits(s)
  {
    if s == [] then 0 else Decimal(s[..|s| - 1]) * 10 + DigitValue(s[|s| - 1])
  }

  // ---------------------------------------------------------------------
  // String searching: `strip_prefix` and `find`
  // ---------------------------------------------------------------------

  /** `str::strip_prefix`. */
  function StripPrefix(s: string, prefix: string): (r: Option<string>)
    ensures r.Some? <==> prefix <= s
    ensures r.Some? ==> s == prefix + r.value
  {
    if prefix <= s then Some(s[|prefix|..]) else None
  }

  /** `pattern` occurs in `s` starting at index `i`. */
  predicate OccursAt(s: string, pattern: string, i: int) {
    0 <= i && i + |pattern| <= |s| && s[i..i + |pattern|] == pattern
  }

  /** The search behind `str::find`, started at index `from`. */
  function FindFrom(s: string, pattern: string, from: nat): (r: Option<nat>)
    decreases |s| - from
    ensures r.Some? ==> from <= r.value && OccursAt(s, pattern, r.value)
    ensures r.Some? ==> forall i :: from <= i < r.value ==> !OccursAt(s, pattern, i)
    ensures r.None? ==> forall i :: from <= i ==> !OccursAt(s, pattern, i)
  {
    if from + |pattern| > |s| then None
    else if s[from..from + |pattern|] == pattern then Some(from)
    else FindFrom(s, pattern, from + 1)
  }

  /** `str::find`: the first index at which `pattern` occurs in `s`, if any. */
  function Find(s: string, pattern: string): (r: Option<nat>)
    ensures r.Some? ==> OccursAt(s, pattern, r.value)
    ensures r.Some? ==> forall i :: 0 <= i < r.value ==> !OccursAt(s, pattern, i)
    ensures r.None? ==> forall i :: !OccursAt(s, pattern, i)
  {
    FindFrom(s, pattern, 0)
  }

  /** `str::contains`. */
  predicate Contains(s: string, pattern: string) {
    Find(s, pattern).Some?
  }

  /** The first occurrence is the one `find` reports. */
  lemma FindIsFirstOccurrence(s: string, pattern: string, k: nat)
    requires OccursAt(s, pattern, k)
    requires forall i :: 0 <= i < k ==> !OccursAt(s, pattern, i)
    ensures Find(s, pattern) == Some(k)
  {
  }

  // ---------------------------------------------------------------------
  // get_adreno_model
  // ---------------------------------------------------------------------

  /** `chars().map_while(|c| c.to_digit(10))`: the maximal run of leading digits. */
  function LeadingDigits(s: string): (r: string)
    ensures r <= s && AllDigits(r)
    ensures |r| < |s| ==> !IsDigit(s[|r|])
  {
    if s != [] && IsDigit(s[0]) then [s[0]] + LeadingDigits(s[1..]) else []
  }

  /** `u32::wrapping_mul` and `u32::wrapping_add`, the release-build arithmetic. */
  function WrappingMul(a: U32, b: U32): U32 {
    (a * b) % U32_LIMIT
  }

  function WrappingAdd(a: U32, b: U32): U32 {
    (a + b) % U32_LIMIT
  }

  /** One step of `fold(0, |acc, digit| acc * 10 + digit)` on `u32`. */
  function AdrenoStep(acc: U32, c: char): U32
    requires IsDigit(c)
  {
    WrappingAdd(WrappingMul(acc, 10), DigitValue(c))
  }

  /** The left fold over the digits, in the order the iterator yields them. */
  function AdrenoFold(digits: string, acc: U32): U32
    requires AllDigits(digits)
  {
    if digits == [] then acc else AdrenoFold(digits[1..], AdrenoStep(acc, digits[0]))
  }

  lemma {:induction false} AdrenoFoldSnoc(p: string, c: char, acc: U32)
    requires AllDigits(p) && IsDigit(c)
    ensures AllDigits(p + [c])
    ensures AdrenoFold(p + [c], acc) == AdrenoStep(AdrenoFold(p, acc), c)
  {
    if p == [] {
      assert [c][1..] == [];
    } else {
      assert (p + [c])[1..] == p[1..] + [c];
      AdrenoFoldSnoc(p[1..], c, AdrenoStep(acc, p[0]));
    }
  }

  lemma {:induction false} ModMultipleVanishes(k: nat, y: int)
    ensures (k * U32_LIMIT + y) % U32_LIMIT == y % U32_LIMIT
  {
    if k > 0 {
      ModMultipleVanishes(k - 1, y);
      assert k * U32_LIMIT + y == ((k - 1) * U32_LIMIT + y) + U32_LIMIT;
    }
  }

  /** Reducing the accumulator first does not change the wrapped step. */
  lemma AdrenoStepMod(x: nat, c: char)
    requires IsDigit(c)
    ensures AdrenoStep(x % U32_LIMIT, c) == (x * 10 + DigitValue(c)) % U32_LIMIT
  {
    var q, r, d := x / U32_LIMIT, x % U32_LIMIT, DigitValue(c);
    assert x == q * U32_LIMIT + r;
    assert x * 10 + d == (10 * q) * U32_LIMIT + (r * 10 + d);
    ModMultipleVanishes(10 * q, r * 10 + d);
    var m := (r * 10) % U32_LIMIT;
    assert r * 10 == ((r * 10) / U32_LIMIT) * U32_LIMIT + m;
    ModMultipleVanishes((r * 10) / U32_LIMIT, m + d);
  }

  /** The wrapping fold computes the decimal value modulo 2^32. */
  lemma {:induction false} AdrenoFoldIsDecimal(digits: string)
    requires AllDigits(digits)
    ensures AdrenoFold(digits, 0) == Decimal(digits) % U32_LIMIT
  {
    if digits != [] {
      var p, c := digits[..|digits| - 1], digits[|digits| - 1];
      assert digits == p + [c];
      AdrenoFoldIsDecimal(p);
      AdrenoFoldSnoc(p, c, 0);
      AdrenoStepMod(Decimal(p), c);
    }
  }

  /**
   * `get_adreno_model`: `None` off Android or when the name lacks the
   * "Adreno (TM) " prefix; otherwise the decimal value of the digits that
   * follow the prefix (any suffix after them ignored, 0 when there are none),
   * taken modulo 2^32 as the release build's `u32` fold wraps.
   */
  function AdrenoModel(onAndroid: bool, name: string): (r: Option<U32>)
    ensures r.Some? <==> onAndroid && ADRENO_PREFIX <= name
    ensures r.Some? ==>
      r.value == Decimal(LeadingDigits(name[|ADRENO_PREFIX|..])) % U32_LIMIT
  {
    if !onAndroid then None
    else
      match StripPrefix(name, ADRENO_PREFIX)
      case None => None
      case Some(model) =>
        var digits := LeadingDigits(model);
        AdrenoFoldIsDecimal(digits);
        Some(AdrenoFold(digits, 0))
  }

  /** The leading-digit run of `digits + suffix` is `digits` when the suffix starts with a non-digit. */
  lemma {:induction false} LeadingDigitsOfRun(digits: string, suffix: string)
    requires AllDigits(digits)
    requires suffix == [] || !IsDigit(suffix[0])
    ensures LeadingDigits(digits + suffix) == digits
  {
    if digits != [] {
      assert (digits + suffix)[1..] == digits[1..] + suffix;
      LeadingDigitsOfRun(digits[1..], suffix);
    }
  }

  lemma SmallValueUnwrapped(x: nat)
    requires x < U32_LIMIT
    ensures x % U32_LIMIT == x
  {
  }

  /**
   * A model number that fits in `u32` is returned exactly, whatever
   * non-digit suffix follows it ("Adreno (TM) 642L" gives 642).
   */
  lemma AdrenoModelOfNumberAndSuffix(digits: string, suffix: string)
    requires AllDigits(digits) && Decimal(digits) < U32_LIMIT
    requires suffix == [] || !IsDigit(suffix[0])
    ensures AdrenoModel(true, ADRENO_PREFIX + digits + suffix) == Some(Decimal(digits))
  {
    var rest := digits + suffix;
    var name := ADRENO_PREFIX + rest;
    assert name == ADRENO_PREFIX + digits + suffix;
    assert ADRENO_PREFIX <= name;
    assert name[|ADRENO_PREFIX|..] == rest;
    LeadingDigitsOfRun(digits, suffix);
    var d := Decimal(digits);
    SmallValueUnwrapped(d);
    var r := AdrenoModel(true, name);
    assert r.Some?;
    assert r.value == d;
  }

  /** With no digit after the prefix the fold never runs and the model is 0. */
  lemma AdrenoModelWithoutDigits(rest: string)
    requires rest == [] || !IsDigit(rest[0])
    ensures AdrenoModel(true, ADRENO_PREFIX + rest) == Some(0)
  {
    AdrenoModelOfNumberAndSuffix([], rest);
    assert ADRENO_PREFIX + [] + rest == ADRENO_PREFIX + rest;
  }

  lemma AdrenoModel642L()
    ensures AdrenoModel(true, "Adreno (TM) 642L") == Some(642)
  {
    assert "Adreno (TM) 642L" == ADRENO_PREFIX + "642" + "L";
    assert "642"[..2] == "64" && "64"[..1] == "6";
    AdrenoModelOfNumberAndSuffix("642", "L");
  }

  // ---------------------------------------------------------------------
  // `str::parse::<u32>`
  // ---------------------------------------------------------------------

  /** The digits `u32::from_str` reads: a single leading '+' is allowed and dropped. */
  function UnsignedDigits(s: string): string {
    if s != [] && s[0] == '+' then s[1..] else s
  }

  /** The strings `u32::from_str` accepts: non-empty decimal digits (after an optional '+') below 2^32. */
  predicate IsU32Literal(s: string) {
    var ds := UnsignedDigits(s);
    ds != [] && AllDigits(ds) && Decimal(ds) < U32_LIMIT
  }

  /** One step of the checked accumulation: an invalid digit or an overflow ends it. */
  function CheckedStep(acc: U32, c: char): Option<U32> {
    if !IsDigit(c) then None
    else if acc * 10 >= U32_LIMIT then None
    else if acc * 10 + DigitValue(c) >= U32_LIMIT then None
    else Some(acc * 10 + DigitValue(c))
  }

  /** `checked_mul(10)` / `checked_add(digit)` over the digits, first to last. */
  function CheckedFold(digits: string, acc: U32): Option<U32> {
    if digits == [] then Some(acc)
    else
      match CheckedStep(acc, digits[0])
      case None => None
      case Some(next) => CheckedFold(digits[1..], next)
  }

  lemma {:induction false} CheckedFoldSnoc(p: string, c: char, acc: U32)
    ensures CheckedFold(p + [c], acc) ==
      match CheckedFold(p, acc)
      case None => None
      case Some(v) => CheckedStep(v, c)
  {
    if p == [] {
      assert [c][1..] == [];
    } else {
      assert (p + [c])[1..] == p[1..] + [c];
      match CheckedStep(acc, p[0])
      case None =>
      case Some(next) => CheckedFoldSnoc(p[1..], c, next);
    }
  }

  /** The checked fold succeeds exactly on digit strings whose value fits, and yields that value. */
  lemma {:induction false} CheckedFoldIsDecimal(digits: string)
    ensures CheckedFold(digits, 0) ==
      if AllDigits(digits) && Decimal(digits) < U32_LIMIT then Some(Decimal(digits)) else None
  {
    if digits != [] {
      var p, c := digits[..|digits| - 1], digits[|digits| - 1];
      assert digits == p + [c];
      CheckedFoldIsDecimal(p);
      CheckedFoldSnoc(p, c, 0);
      if AllDigits(p) {
        assert AllDigits(digits) <==> IsDigit(c);
        if IsDigit(c) {
          assert Decimal(digits) == Decimal(p) * 10 + DigitValue(c);
        }
      } else {
        assert !AllDigits(digits);
      }
    }
  }

  /** `str::parse::<u32>().ok()`. */
  function ParseU32(s: string): (r: Option<U32>)
    ensures r.Some? <==> IsU32Literal(s)
    ensures r.Some? ==> AllDigits(UnsignedDigits(s)) && r.value == Decimal(UnsignedDigits(s))
  {
    CheckedFoldIsDecimal(UnsignedDigits(s));
    if s == [] then None
    else if s[0] == '+' then (if |s| == 1 then None else CheckedFold(s[1..], 0))
    else CheckedFold(s, 0)
  }

  // ---------------------------------------------------------------------
  // get_mali_driver_version
  // ---------------------------------------------------------------------

  /**
   * The text `get_mali_driver_version` parses: what lies between the first
   * "v1.r" of the driver info and the first 'p' at or after it.
   */
  function VersionText(driverInfo: string): (r: Option<string>)
    ensures Find(driverInfo, VERSION_MARKER).None? ==> r.None?
    ensures r.Some? ==> exists start, end ::
      && Find(driverInfo, VERSION_MARKER) == Some(start)
      && start + |VERSION_MARKER| <= end < |driverInfo| && driverInfo[end] == 'p'
      && (forall i :: start <= i < end ==> driverInfo[i] != 'p')
      && r.value == driverInfo[start + |VERSION_MARKER|..end]
  {
    match Find(driverInfo, VERSION_MARKER)
    case None => None
    case Some(startPos) =>
      var tail := driverInfo[startPos..];
      match Find(tail, VERSION_END)
      case None => None
      case Some(endPos) =>
        assert tail[..4] == VERSION_MARKER;
        assert tail[endPos] == 'p';
        assert forall i :: startPos <= i < startPos + endPos ==> driverInfo[i] != 'p' by {
          forall i | startPos <= i < startPos + endPos ensures driverInfo[i] != 'p' {
            assert !OccursAt(tail, VERSION_END, i - startPos);
            assert tail[i - startPos..i - startPos + 1] == [driverInfo[i]];
          }
        }
        Some(driverInfo[startPos + |VERSION_MARKER|..startPos + endPos])
  }

  /**
   * `get_mali_driver_version`: the `u32` parse of the version text, provided
   * the adapter name contains "Mali".
   */
  function MaliDriverVersion(onAndroid: bool, name: string, driverInfo: string): (r: Option<U32>)
    ensures !onAndroid || !Contains(name, MALI_NAME) || VersionText(driverInfo).None? ==> r.None?
    ensures r.Some? ==>
      IsU32Literal(VersionText(driverInfo).value) && r.value == Decimal(UnsignedDigits(VersionText(driverInfo).value))
  {
    if !onAndroid || !Contains(name, MALI_NAME) then None
    else
      match VersionText(driverInfo)
      case None => None
      case Some(text) => ParseU32(text)
  }

  /** No 'p' at or after the first "v1.r": no version. */
  lemma MaliWithoutVersionEnd(name: string, driverInfo: string, start: nat)
    requires Find(driverInfo, VERSION_MARKER) == Some(start)
    requires forall i :: start <= i < |driverInfo| ==> driverInfo[i] != 'p'
    ensures MaliDriverVersion(true, name, driverInfo).None?
  {
  }

  /**
   * The version is the `u32` parse of exactly the text between the first
   * "v1.r" and the next 'p': an empty or non-numeric text gives `None`.
   */
  lemma MaliVersionIsParsedSlice(name: string, before: string, version: string, after: string)
    requires Contains(name, MALI_NAME)
    requires forall i :: 0 <= i < |before| ==>
      !OccursAt(before + VERSION_MARKER + version + VERSION_END + after, VERSION_MARKER, i)
    requires forall i :: 0 <= i < |version| ==> version[i] != 'p'
    ensures MaliDriverVersion(true, name, before + VERSION_MARKER + version + VERSION_END + after)
      == ParseU32(version)
  {
    var info := before + VERSION_MARKER + version + VERSION_END + after;
    var start := |before|;
    assert info[start..start + 4] == VERSION_MARKER;
    FindIsFirstOccurrence(info, VERSION_MARKER, start);
    assert info[start..] == VERSION_MARKER + version + VERSION_END + after;
    VersionEndAfterMarker(version, after);
    assert info[start + 4..start + 4 + |version|] == version;
    assert VersionText(info) == Some(version);
  }

  /** In the text from the marker on, the first 'p' is the one after `version`. */
  lemma VersionEndAfterMarker(version: string, after: string)
    requires forall i :: 0 <= i < |version| ==> version[i] != 'p'
    ensures Find(VERSION_MARKER + version + VERSION_END + after, VERSION_END) == Some(4 + |version|)
  {
    var tail := VERSION_MARKER + version + VERSION_END + after;
    var endPos := 4 + |version|;
    assert tail[endPos..endPos + 1] == VERSION_END;
    forall i | 0 <= i < endPos ensures !OccursAt(tail, VERSION_END, i) {
      if i < 4 {
        assert tail[i] == VERSION_MARKER[i];
      } else {
        assert tail[i] == version[i - 4];
      }
    }
    FindIsFirstOccurrence(tail, VERSION_END, endPos);
  }

  lemma MaliVersionExample()
    ensures MaliDriverVersion(true, "Mali-G78", "v1.r32p1-01eac0") == Some(32)
  {
    assert "Mali-G78"[0..4] == MALI_NAME;
    FindIsFirstOccurrence("Mali-G78", MALI_NAME, 0);
    assert "v1.r32p1-01eac0" == [] + VERSION_MARKER + "32" + VERSION_END + "1-01eac0";
    MaliVersionIsParsedSlice("Mali-G78", [], "32", "1-01eac0");
    assert "32"[..1] == "3" && "3"[..0] == [];
    assert Decimal("3") == 3;
    assert Decimal("32") == 32;
    assert UnsignedDigits("32") == "32";
  }
}
