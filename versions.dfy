/**
 * Version strings: JavaScript's `split('.')` and `parseInt`, the startup
 * classification and the major/minor/patch delta of an update.
 */
module Versions {
  import opened Wrappers

  /** `s.split(d)` for a one-character separator: the pieces between separators, empty ones kept. */
  function Split(s: string, d: char): (parts: seq<string>)
    ensures |parts| >= 1
    ensures forall p :: p in parts ==> d !in p
    decreases |s|
  {
    if |s| == 0 then [""]
    else if s[0] == d then [""] + Split(s[1..], d)
    else
      var rest := Split(s[1..], d);
      [[s[0]] + rest[0]] + rest[1..]
  }

  /** `parts.join(d)`. */
  function Join(parts: seq<string>, d: char): string
    requires |parts| >= 1
    decreases |parts|
  {
    if |parts| == 1 then parts[0] else parts[0] + [d] + Join(parts[1..], d)
  }

  /** Joining the pieces of a split gives the string back. */
  lemma {:induction false} JoinSplit(s: string, d: char)
    ensures Join(Split(s, d), d) == s
    decreases |s|
  {
    if |s| > 0 {
      JoinSplit(s[1..], d);
      var rest := Split(s[1..], d);
      if s[0] != d {
        if |rest| > 1 {
          assert ([[s[0]] + rest[0]] + rest[1..])[1..] == rest[1..];
          assert Join(rest, d) == rest[0] + [d] + Join(rest[1..], d);
        }
      }
    }
  }

  /** Splitting a join of separator-free pieces gives the pieces back. */
  lemma {:induction false} SplitJoin(parts: seq<string>, d: char)
    requires |parts| >= 1
    requires forall p :: p in parts ==> d !in p
    ensures Split(Join(parts, d), d) == parts
    decreases |parts|, |parts[0]|
  {
    if |parts| == 1 {
      SplitNoSeparator(parts[0], d);
    } else if |parts[0]| == 0 {
      assert Join(parts, d) == [d] + Join(parts[1..], d);
      assert (forall p :: p in parts[1..] ==> p in parts);
      SplitJoin(parts[1..], d);
      assert ([d] + Join(parts[1..], d))[1..] == Join(parts[1..], d);
    } else {
      var p0 := parts[0];
      var shorter := [p0[1..]] + parts[1..];
      assert forall p :: p in shorter ==> p == p0[1..] || p in parts;
      assert p0[1..] == p0[1..] && (forall c :: c in p0[1..] ==> c in p0);
      SplitJoin(shorter, d);
      assert shorter[1..] == parts[1..];
      assert Join(parts, d) == [p0[0]] + Join(shorter, d);
      assert ([p0[0]] + Join(shorter, d))[1..] == Join(shorter, d);
      assert [p0[0]] + p0[1..] == p0;
    }
  }

  lemma {:induction false} SplitNoSeparator(s: string, d: char)
    requires d !in s
    ensures Split(s, d) == [s]
    decreases |s|
  {
    if |s| > 0 {
      assert forall c :: c in s[1..] ==> c in s;
      SplitNoSeparator(s[1..], d);
      assert [s[0]] + s[1..] == s;
    }
  }

  predicate IsDigit(c: char)
  {
    '0' <= c <= '9'
  }

  function DigitValue(c: char): nat
    requires IsDigit(c)
  {
    (c as int) - ('0' as int)
  }

  /** The longest prefix of decimal digits. */
  function DigitPrefix(s: string): (p: string)
    ensures |p| <= |s| && p == s[..|p|]
    ensures forall c :: c in p ==> IsDigit(c)
    ensures |p| < |s| ==> !IsDigit(s[|p|])
    decreases |s|
  {
    if |s| > 0 && IsDigit(s[0]) then [s[0]] + DigitPrefix(s[1..]) else ""
  }

  /** The value of a string of decimal digits. */
  function DigitsValue(ds: string): nat
    requires forall c :: c in ds ==> IsDigit(c)
    decreases |ds|
  {
    if |ds| == 0 then 0
    else
      assert forall c :: c in ds[..|ds| - 1] ==> c in ds;
      DigitsValue(ds[..|ds| - 1]) * 10 + DigitValue(ds[|ds| - 1])
  }

  /**
   * `parseInt(s)` on a decimal string: an optional sign, then the longest run of
   * digits; `None` is NaN (no digit after the sign).
   */
  function ParseInt(s: string): (r: Option<int>)
    ensures r.None? <==> (if |s| > 0 && (s[0] == '+' || s[0] == '-') then |s| == 1 || !IsDigit(s[1]) else |s| == 0 || !IsDigit(s[0]))
  {
    var negative := |s| > 0 && s[0] == '-';
    var body := if |s| > 0 && (s[0] == '+' || s[0] == '-') then s[1..] else s;
    var ds := DigitPrefix(body);
    var magnitude: int := if |ds| == 0 then 0 else DigitsValue(ds);
    var value: int := if negative then -magnitude else magnitude;
    if |ds| == 0 then None else Some(value)
  }

  function DigitChar(k: nat): (c: char)
    requires k < 10
    ensures IsDigit(c) && DigitValue(c) == k
  {
    ('0' as int + k) as char
  }

  /** `n + ''`: the decimal representation of a non-negative number. */
  function DecimalString(n: nat): (s: string)
    ensures |s| >= 1
    ensures forall c :: c in s ==> IsDigit(c)
    decreases n
  {
    if n < 10 then [DigitChar(n)] else DecimalString(n / 10) + [DigitChar(n % 10)]
  }

  lemma {:induction false} DigitsValueOfDecimalString(n: nat)
    ensures DigitsValue(DecimalString(n)) == n
    decreases n
  {
    if n >= 10 {
      DigitsValueOfDecimalString(n / 10);
      var s := DecimalString(n);
      assert s[..|s| - 1] == DecimalString(n / 10);
    }
  }

  lemma {:induction false} DigitPrefixOfDigits(ds: string, rest: string)
    requires forall c :: c in ds ==> IsDigit(c)
    requires |rest| == 0 || !IsDigit(rest[0])
    ensures DigitPrefix(ds + rest) == ds
    decreases |ds|
  {
    if |ds| > 0 {
      assert (ds + rest)[1..] == ds[1..] + rest;
      assert forall c :: c in ds[1..] ==> c in ds;
      DigitPrefixOfDigits(ds[1..], rest);
      assert [ds[0]] + ds[1..] == ds;
    } else {
      assert ds + rest == rest;
    }
  }

  /** parseInt reads back a number written in decimal, whatever non-digit text follows it. */
  lemma ParseIntDecimalString(n: nat, rest: string)
    requires |rest| == 0 || !IsDigit(rest[0])
    ensures ParseInt(DecimalString(n) + rest) == Some(n)
  {
    var s := DecimalString(n) + rest;
    assert s[0] == DecimalString(n)[0];
    DigitPrefixOfDigits(DecimalString(n), rest);
    DigitsValueOfDecimalString(n);
  }

  datatype StartupType = Incognito | Restart | Install | Update

  /**
   * runStartupChecks' classification. `lastVersion` is the stored version (`None` when
   * missing); an empty string counts as missing, as the source tests it for truthiness.
   */
  function ClassifyStartup(inIncognitoContext: bool, lastVersion: Option<string>, curVersion: string): (t: StartupType)
    ensures t == Incognito <==> inIncognitoContext
    ensures t == Restart <==> !inIncognitoContext && lastVersion == Some(curVersion)
    ensures t == Install <==> !inIncognitoContext && lastVersion != Some(curVersion) && lastVersion in {None, Some(""), Some("0.0.0")}
    ensures t == Update <==> !inIncognitoContext && lastVersion != Some(curVersion) && lastVersion !in {None, Some(""), Some("0.0.0")}
  {
    if inIncognitoContext then Incognito
    else if lastVersion == Some(curVersion) then Restart
    else if lastVersion.None? || lastVersion.value == "" || lastVersion.value == "0.0.0" then Install
    else Update
  }

  datatype UpdateType = Major | Minor | Patch

  /** `a > b` on parseInt results: any comparison with NaN is false. */
  predicate Greater(a: Option<int>, b: Option<int>)
  {
    a.Some? && b.Some? && a.value > b.value
  }

  /**
   * handleUpdate's version delta, from the first two dot-separated parts; `None`
   * (updateType left unset) when either version has fewer than two parts.
   */
  function VersionDelta(lastVersion: string, curVersion: string): (r: Option<UpdateType>)
    ensures r.None? <==> |Split(lastVersion, '.')| < 2 || |Split(curVersion, '.')| < 2
    ensures r == Some(Major) <==> r.Some? && Greater(ParseInt(Split(curVersion, '.')[0]), ParseInt(Split(lastVersion, '.')[0]))
    ensures r == Some(Minor) <==> r.Some? && !Greater(ParseInt(Split(curVersion, '.')[0]), ParseInt(Split(lastVersion, '.')[0]))
                                  && Greater(ParseInt(Split(curVersion, '.')[1]), ParseInt(Split(lastVersion, '.')[1]))
  {
    var lastVersionParts := Split(lastVersion, '.');
    var curVersionParts := Split(curVersion, '.');
    if |lastVersionParts| >= 2 && |curVersionParts| >= 2 then
      if Greater(ParseInt(curVersionParts[0]), ParseInt(lastVersionParts[0])) then Some(Major)
      else if Greater(ParseInt(curVersionParts[1]), ParseInt(lastVersionParts[1])) then Some(Minor)
      else Some(Patch)
    else None
  }

  /** The version string "a.b.c". */
  function VersionString(a: nat, b: nat, c: nat): string
  {
    DecimalString(a) + "." + DecimalString(b) + "." + DecimalString(c)
  }

  lemma SplitVersionString(a: nat, b: nat, c: nat)
    ensures Split(VersionString(a, b, c), '.') == [DecimalString(a), DecimalString(b), DecimalString(c)]
  {
    var parts := [DecimalString(a), DecimalString(b), DecimalString(c)];
    forall p | p in parts ensures '.' !in p {
    }
    assert Join(parts, '.') == VersionString(a, b, c) by {
      assert Join(parts[2..], '.') == DecimalString(c);
      assert Join(parts[1..], '.') == DecimalString(b) + "." + DecimalString(c);
    }
    SplitJoin(parts, '.');
  }

  /** On numeric versions the delta compares the major, then the minor, number. */
  lemma {:induction false} VersionDeltaOfNumbers(a0: nat, b0: nat, c0: nat, a1: nat, b1: nat, c1: nat)
    ensures VersionDelta(VersionString(a0, b0, c0), VersionString(a1, b1, c1)) ==
      if a1 > a0 then Some(Major) else if b1 > b0 then Some(Minor) else Some(Patch)
  {
    SplitVersionString(a0, b0, c0);
    SplitVersionString(a1, b1, c1);
    ParseIntDecimalString(a0, "");
    ParseIntDecimalString(b0, "");
    ParseIntDecimalString(a1, "");
    ParseIntDecimalString(b1, "");
    assert DecimalString(a0) + "" == DecimalString(a0);
    assert DecimalString(b0) + "" == DecimalString(b0);
    assert DecimalString(a1) + "" == DecimalString(a1);
    assert DecimalString(b1) + "" == DecimalString(b1);
  }

  /** "4.1.0" to "4.2.3" is minor, to "5.0.0" major, to "4.1.3" patch. */
  lemma VersionDeltaExamples()
    ensures VersionDelta("4.1.0", "4.2.3") == Some(Minor)
    ensures VersionDelta("4.1.0", "5.0.0") == Some(Major)
    ensures VersionDelta("4.1.0", "4.1.3") == Some(Patch)
  {
    assert VersionString(4, 1, 0) == "4.1.0";
    assert VersionString(4, 2, 3) == "4.2.3";
    assert VersionString(5, 0, 0) == "5.0.0";
    assert VersionString(4, 1, 3) == "4.1.3";
    VersionDeltaOfNumbers(4, 1, 0, 4, 2, 3);
    VersionDeltaOfNumbers(4, 1, 0, 5, 0, 0);
    VersionDeltaOfNumbers(4, 1, 0, 4, 1, 3);
  }
}
