/**
 * The parts of PHP's value and string semantics that the importer depends on:
 * truthiness and empty(), intval(), array-key normalisation, string
 * conversion, strpos/strrpos, str_replace, explode, trim, strtolower, and
 * WordPress's wp_parse_args() merge.
 */
module Php {

  datatype Option<T> = None | Some(value: T)

  /** A scalar as it appears in a mapped record, a meta value or block arguments. */
  datatype Value = Null | Bool(b: bool) | Int(i: int) | Str(s: string)

  /** empty() on a string: "" and "0" are empty, every other string is truthy. */
  predicate EmptyString(s: string) {
    s == "" || s == "0"
  }

  /** empty() on a scalar; a value is truthy exactly when it is not empty. */
  predicate Empty(v: Value) {
    match v
    case Null => true
    case Bool(b) => !b
    case Int(i) => i == 0
    case Str(s) => EmptyString(s)
  }

  // ---------------------------------------------------------------------------
  // Decimal integers

  predicate IsDigit(c: char) {
    '0' as int <= c as int <= '9' as int
  }

  predicate AllDigits(s: string) {
    forall i :: 0 <= i < |s| ==> IsDigit(s[i])
  }

  function DigitChar(d: nat): (c: char)
    requires d < 10
    ensures IsDigit(c)
  {
    ('0' as int + d) as char
  }

  function DigitValue(c: char): (d: nat)
    requires IsDigit(c)
    ensures d < 10
  {
    c as int - '0' as int
  }

  /** The decimal digits of n, without leading zeros. */
  function NatToString(n: nat): (r: string)
    ensures |r| > 0 && AllDigits(r)
    ensures r[0] == '0' <==> n == 0
  {
    if n < 10 then [DigitChar(n)] else NatToString(n / 10) + [DigitChar(n % 10)]
  }

  /** PHP's conversion of an int to a string ("-" and the digits for a negative int). */
  function IntToString(n: int): (r: string)
    ensures |r| > 0
    ensures forall i :: 0 <= i < |r| ==> IsDigit(r[i]) || r[i] == '-'
  {
    if n < 0 then "-" + NatToString(-n) else NatToString(n)
  }

  /** The value of a string of decimal digits. */
  function DigitsValue(s: string): nat
    requires AllDigits(s)
  {
    if s == [] then 0 else DigitsValue(s[..|s| - 1]) * 10 + DigitValue(s[|s| - 1])
  }

  /** The longest prefix of s made of decimal digits. */
  function DigitPrefix(s: string): (r: string)
    ensures |r| <= |s| && r == s[..|r|] && AllDigits(r)
    ensures |r| < |s| ==> !IsDigit(s[|r|])
  {
    if s != [] && IsDigit(s[0]) then [s[0]] + DigitPrefix(s[1..]) else []
  }

  predicate IsSpace(c: char) {
    c == ' ' || c == '\t' || c == '\n' || c == '\r' || c == '\U{000B}' || c == '\U{000C}'
  }

  /**
   * intval() of a string: leading white space, an optional sign and the
   * longest run of digits that follows; 0 when there is none.
   */
  function LeadingInt(s: string): int
  {
    if s != [] && IsSpace(s[0]) then LeadingInt(s[1..])
    else if s != [] && s[0] == '-' then -(DigitsValue(DigitPrefix(s[1..])) as int)
    else if s != [] && s[0] == '+' then DigitsValue(DigitPrefix(s[1..]))
    else DigitsValue(DigitPrefix(s))
  }

  /**
   * intval() and the (int) cast: every empty value is 0, and a string in
   * the canonical decimal form of an integer is that integer.
   */
  function IntVal(v: Value): (r: int)
    ensures Empty(v) ==> r == 0
    ensures v.Int? ==> r == v.i
    ensures v.Str? && CanonicalInt(v.s).Some? ==> r == CanonicalInt(v.s).value
  {
    match v
    case Null => 0
    case Bool(b) => if b then 1 else 0
    case Int(i) => i
    case Str(s) =>
      assert s == "0" ==> LeadingInt(s) == 0 by {
        if s == "0" {
          assert DigitPrefix("0") == "0";
          assert DigitsValue("0") == DigitsValue("") * 10 + 0;
        }
      }
      LeadingInt(s)
  }

  lemma {:induction false} DigitsValueOfNatToString(n: nat)
    ensures DigitsValue(NatToString(n)) == n
  {
    if n >= 10 {
      var s := NatToString(n);
      assert s[..|s| - 1] == NatToString(n / 10);
      DigitsValueOfNatToString(n / 10);
    }
  }

  lemma {:induction false} DigitPrefixOfDigits(s: string)
    requires AllDigits(s)
    ensures DigitPrefix(s) == s
  {
    if s != [] {
      DigitPrefixOfDigits(s[1..]);
    }
  }

  lemma LeadingIntOfDigits(d: string)
    requires d != [] && AllDigits(d)
    ensures LeadingInt(d) == DigitsValue(d)
    ensures LeadingInt("-" + d) == -(DigitsValue(d) as int)
  {
    DigitPrefixOfDigits(d);
    assert !IsSpace(d[0]) && d[0] != '-' && d[0] != '+';
    var m := "-" + d;
    assert m[0] == '-' && !IsSpace(m[0]) && m[1..] == d;
  }

  /** intval() reads back every integer that PHP prints. */
  lemma LeadingIntOfIntString(n: int)
    ensures LeadingInt(IntToString(n)) == n
  {
    if n < 0 {
      LeadingIntOfDigits(NatToString(-n));
      DigitsValueOfNatToString(-n);
    } else {
      LeadingIntOfDigits(NatToString(n));
      DigitsValueOfNatToString(n);
    }
  }

  /** Distinct integers print as distinct strings. */
  lemma IntToStringInjective(a: int, b: int)
    requires IntToString(a) == IntToString(b)
    ensures a == b
  {
    LeadingIntOfIntString(a);
    LeadingIntOfIntString(b);
  }

  // ---------------------------------------------------------------------------
  // Array keys

  /** A normalised PHP array key. */
  datatype Key = IntKey(k: int) | StrKey(s: string)

  /** A string that PHP turns into an integer key: exactly the canonical decimal form of an int. */
  function CanonicalInt(s: string): (r: Option<int>)
    ensures r.Some? ==> s == IntToString(r.value)
  {
    var n := LeadingInt(s);
    if s == IntToString(n) then Some(n) else None
  }

  lemma CanonicalIntOfIntString(n: int)
    ensures CanonicalInt(IntToString(n)) == Some(n)
  {
    LeadingIntOfIntString(n);
  }

  /** The key that $array[$v] denotes. */
  function ArrayKey(v: Value): Key {
    match v
    case Null => StrKey("")
    case Bool(b) => IntKey(if b then 1 else 0)
    case Int(i) => IntKey(i)
    case Str(s) =>
      match CanonicalInt(s)
      case Some(n) => IntKey(n)
      case None => StrKey(s)
  }

  /** isset($m[$v]) on an array whose keys are all integers. */
  predicate IssetInt(m: map<int, int>, v: Value) {
    ArrayKey(v).IntKey? && ArrayKey(v).k in m
  }

  /** A PHP array: its keys in insertion order and the value under each key. */
  datatype OrderedMap<K(==,!new), V> = OrderedMap(keys: seq<K>, values: map<K, V>) {
    /** Every key once, and exactly the keys that carry a value. */
    ghost predicate Valid() {
      (forall i, j :: 0 <= i < j < |keys| ==> keys[i] != keys[j])
      && (forall k :: k in values <==> k in keys)
    }
  }

  function EmptyMap<K(==,!new), V>(): (r: OrderedMap<K, V>)
    ensures r.Valid() && r.keys == []
  {
    OrderedMap([], map[])
  }

  /** $m[$k] = $v: a new key goes last, an existing key keeps its place. */
  function Put<K(==,!new), V>(m: OrderedMap<K, V>, k: K, v: V): (r: OrderedMap<K, V>)
    requires m.Valid()
    ensures r.Valid()
    ensures k in r.values && r.values[k] == v
    ensures forall j :: j != k ==> (j in r.values <==> j in m.values)
    ensures forall j :: j != k && j in m.values ==> r.values[j] == m.values[j]
    ensures k in m.values ==> r.keys == m.keys
    ensures k !in m.values ==> r.keys == m.keys + [k]
  {
    OrderedMap(if k in m.values then m.keys else m.keys + [k], m.values[k := v])
  }

  /** Conversion to string, as by concatenation with '.'. */
  function ToString(v: Value): string {
    match v
    case Null => ""
    case Bool(b) => if b then "1" else ""
    case Int(i) => IntToString(i)
    case Str(s) => s
  }

  /**
   * PHP 8's loose comparison v == s against a string s that is not numeric
   * (a post-type slug, a meta key): an integer is compared in its decimal
   * form, a boolean with the truthiness of s, null with "".
   */
  predicate LooseEqualsWord(v: Value, s: string): (r: bool)
    ensures !v.Bool? ==> (r <==> ToString(v) == s)
    ensures v.Bool? ==> (r <==> v.b == !EmptyString(s))
  {
    match v
    case Null => s == ""
    case Bool(b) => b == !EmptyString(s)
    case Int(i) => IntToString(i) == s
    case Str(t) => t == s
  }

  // ---------------------------------------------------------------------------
  // Strings

  predicate StartsWith(s: string, p: string) {
    |p| <= |s| && s[..|p|] == p
  }

  predicate EndsWith(s: string, p: string) {
    |p| <= |s| && s[|s| - |p|..] == p
  }

  lemma PrefixConcat(a: string, b: string)
    ensures StartsWith(a + b, a)
  {
    assert (a + b)[..|a|] == a;
  }

  lemma StartsWithAppend(s: string, p: string, t: string)
    requires StartsWith(s, p)
    ensures StartsWith(s + t, p)
  {
    assert (s + t)[..|p|] == s[..|p|];
  }

  lemma SuffixConcat(a: string, b: string)
    ensures EndsWith(a + b, b)
  {
    assert (a + b)[|a|..] == b;
  }

  lemma EndsWithPrepend(s: string, p: string, t: string)
    requires EndsWith(s, p)
    ensures EndsWith(t + s, p)
  {
    assert (t + s)[|t + s| - |p|..] == s[|s| - |p|..];
  }

  /** A string built as (a + b) + c + (d + e) ends with b + c + d + e. */
  lemma EndsWithRegroup(a: string, b: string, c: string, d: string, e: string)
    ensures EndsWith(a + b + c + (d + e), b + c + d + e)
  {
    assert (a + b + c + (d + e))[|a|..] == b + c + d + e;
  }

  lemma EndsWithTrans(s: string, a: string, b: string)
    requires EndsWith(s, a) && EndsWith(a, b)
    ensures EndsWith(s, b)
  {
    assert s[|s| - |b|..] == a[|a| - |b|..];
  }

  /** A suffix fixes the characters at the end of the string. */
  lemma EndsWithAt(s: string, p: string, i: int)
    requires 0 <= i < |p|
    ensures EndsWith(s, p) ==> s[|s| - |p| + i] == p[i]
  {
    if EndsWith(s, p) {
      assert s[|s| - |p|..][i] == p[i];
    }
  }

  /** p occurs in s at index i. */
  predicate OccursAt(s: string, p: string, i: int) {
    0 <= i && i + |p| <= |s| && s[i..i + |p|] == p
  }

  /** strpos($s, $p, $i): the first occurrence of p in s at or after i. */
  function FindFrom(s: string, p: string, i: nat): (r: Option<nat>)
    requires i <= |s|
    ensures r.Some? ==> i <= r.value && OccursAt(s, p, r.value)
    ensures r.Some? ==> forall j :: i <= j < r.value ==> !OccursAt(s, p, j)
    ensures r.None? ==> forall j :: i <= j ==> !OccursAt(s, p, j)
    decreases |s| - i
  {
    if i + |p| > |s| then None
    else if s[i..i + |p|] == p then Some(i)
    else FindFrom(s, p, i + 1)
  }

  /** strrpos with a one-character needle. */
  function LastIndexOf(s: string, c: char): (r: Option<nat>)
    ensures r.None? <==> c !in s
    ensures r.Some? ==> r.value < |s| && s[r.value] == c && c !in s[r.value + 1..]
  {
    if s == [] then None
    else if s[|s| - 1] == c then Some(|s| - 1)
    else
      assert s == s[..|s| - 1] + [s[|s| - 1]];
      LastIndexOf(s[..|s| - 1], c)
  }

  /** A string that occurs at k, and nowhere between i and k, is first found at k. */
  lemma FindFromFirst(s: string, p: string, i: nat, k: nat)
    requires i <= k && i <= |s| && OccursAt(s, p, k)
    requires forall j :: i <= j < k ==> !OccursAt(s, p, j)
    ensures FindFrom(s, p, i) == Some(k)
  {
  }

  /** The last c in a + [c] + b, when b holds no c, is the one after a. */
  lemma {:induction false} LastIndexOfSplit(a: string, c: char, b: string)
    requires c !in b
    ensures LastIndexOf(a + [c] + b, c) == Some(|a|)
    decreases |b|
  {
    var s := a + [c] + b;
    if b != [] {
      assert s[..|s| - 1] == a + [c] + b[..|b| - 1];
      LastIndexOfSplit(a, c, b[..|b| - 1]);
    }
  }

  /**
   * str_replace($search, $replace, $subject): scans the subject from the left
   * and replaces each non-overlapping occurrence; an empty search string
   * leaves the subject unchanged.
   */
  function StrReplace(search: string, replace: string, subject: string): (r: string)
    ensures search == [] ==> r == subject
    ensures replace == search ==> r == subject
    decreases |subject|
  {
    if search == [] || |subject| < |search| then subject
    else if subject[..|search|] == search then
      assert subject == subject[..|search|] + subject[|search|..];
      replace + StrReplace(search, replace, subject[|search|..])
    else
      assert subject == [subject[0]] + subject[1..];
      [subject[0]] + StrReplace(search, replace, subject[1..])
  }

  /** Replacing a string that does not occur changes nothing. */
  lemma {:induction false} StrReplaceAbsent(search: string, replace: string, subject: string)
    requires forall j :: !OccursAt(subject, search, j)
    ensures StrReplace(search, replace, subject) == subject
    decreases |subject|
  {
    if search != [] && |subject| >= |search| {
      assert !OccursAt(subject, search, 0);
      forall j ensures !OccursAt(subject[1..], search, j) {
        if OccursAt(subject[1..], search, j) {
          assert subject[1..][j..j + |search|] == subject[j + 1..j + 1 + |search|];
          assert OccursAt(subject, search, j + 1);
        }
      }
      StrReplaceAbsent(search, replace, subject[1..]);
      assert subject == [subject[0]] + subject[1..];
    }
  }

  lemma StrReplaceFront(search: string, replace: string, u: string)
    requires search != [] && StartsWith(u, search)
    ensures StrReplace(search, replace, u) == replace + StrReplace(search, replace, u[|search|..])
  {
  }

  lemma StrReplaceSkip(search: string, replace: string, u: string)
    requires search != [] && |u| >= |search| && !StartsWith(u, search)
    ensures StrReplace(search, replace, u) == [u[0]] + StrReplace(search, replace, u[1..])
  {
  }

  lemma SliceOfTail(p: string, k: int)
    requires 1 <= k < |p|
    ensures p[1..][k - 1] == p[k]
  {
  }

  /**
   * When the first character of the search string does not recur in it,
   * occurrences cannot overlap, so a trailing occurrence is always replaced.
   */
  lemma {:induction false} StrReplaceTrailing(search: string, replace: string, s: string)
    requires search != [] && search[0] !in search[1..]
    ensures StrReplace(search, replace, s + search) == StrReplace(search, replace, s) + replace
    decreases |s|
  {
    var t := s + search;
    if s == [] {
      assert t == search && t[|search|..] == [];
      StrReplaceFront(search, replace, t);
    } else {
      if StartsWith(t, search) {
        if |s| < |search| {
          // the match would end inside the trailing occurrence, at a second search[0]
          SliceOfTail(search, |s|);
          assert false;
        }
        assert StartsWith(s, search);
        assert t[|search|..] == s[|search|..] + search;
        StrReplaceFront(search, replace, t);
        StrReplaceFront(search, replace, s);
        StrReplaceTrailing(search, replace, s[|search|..]);
      } else {
        assert t[1..] == s[1..] + search;
        StrReplaceSkip(search, replace, t);
        StrReplaceTrailing(search, replace, s[1..]);
        if |s| >= |search| {
          assert s[..|search|] == t[..|search|];
          StrReplaceSkip(search, replace, s);
        } else {
          assert StrReplace(search, replace, s[1..]) == s[1..];
          assert StrReplace(search, replace, s) == s;
          assert s == [s[0]] + s[1..];
        }
      }
    }
  }

  /** explode() with a one-character delimiter. */
  function Explode(s: string, c: char): (parts: seq<string>)
    ensures |parts| >= 1
    ensures forall i :: 0 <= i < |parts| ==> c !in parts[i]
    ensures |parts| == 1 <==> c !in s
    decreases |s|
  {
    match LastIndexOf(s, c)
    case None => [s]
    case Some(i) => Explode(s[..i], c) + [s[i + 1..]]
  }

  /** implode(): the inverse of explode(). */
  function Join(parts: seq<string>, c: char): string
    requires |parts| >= 1
  {
    if |parts| == 1 then parts[0] else Join(parts[..|parts| - 1], c) + [c] + parts[|parts| - 1]
  }

  /** Joining one more part appends the separator and the part. */
  lemma JoinSnoc(front: seq<string>, last: string, c: char)
    requires |front| >= 1
    ensures Join(front + [last], c) == Join(front, c) + [c] + last
  {
    var parts := front + [last];
    assert parts[..|parts| - 1] == front;
  }

  /** A string is the part before index i, the character at i and the part after. */
  lemma SplitAround(s: string, i: int)
    requires 0 <= i < |s|
    ensures s == s[..i] + [s[i]] + s[i + 1..]
  {
  }

  /** implode() undoes explode(). */
  lemma {:induction false} JoinExplode(s: string, c: char)
    ensures Join(Explode(s, c), c) == s
    decreases |s|
  {
    match LastIndexOf(s, c)
    case None =>
    case Some(i) =>
      var front := Explode(s[..i], c);
      assert Explode(s, c) == front + [s[i + 1..]];
      JoinSnoc(front, s[i + 1..], c);
      JoinExplode(s[..i], c);
      SplitAround(s, i);
  }

  /** end($array). */
  function Last<T>(xs: seq<T>): T
    requires |xs| > 0
  {
    xs[|xs| - 1]
  }

  /** The characters trim() removes by default. */
  predicate IsTrimmed(c: char) {
    c == ' ' || c == '\t' || c == '\n' || c == '\r' || c == '\0' || c == '\U{000B}'
  }

  /** ltrim(): the suffix left once the leading trimmed characters are removed. */
  function TrimLeft(s: string): (r: string)
    ensures |r| <= |s| && r == s[|s| - |r|..]
    ensures r == [] || !IsTrimmed(r[0])
  {
    if s != [] && IsTrimmed(s[0]) then
      var r := TrimLeft(s[1..]);
      assert s[1..][|s| - 1 - |r|..] == s[|s| - |r|..];
      r
    else s
  }

  /** rtrim(): the prefix left once the trailing trimmed characters are removed. */
  function TrimRight(s: string): (r: string)
    ensures |r| <= |s| && r == s[..|r|]
    ensures r == [] || !IsTrimmed(r[|r| - 1])
  {
    if s != [] && IsTrimmed(s[|s| - 1]) then
      var r := TrimRight(s[..|s| - 1]);
      assert s[..|s| - 1][..|r|] == s[..|r|];
      r
    else s
  }

  /** ltrim() removes only trimmed characters: everything before the suffix it keeps. */
  lemma {:induction false} TrimLeftDrops(s: string)
    ensures forall k :: 0 <= k < |s| - |TrimLeft(s)| ==> IsTrimmed(s[k])
    decreases |s|
  {
    if s != [] && IsTrimmed(s[0]) {
      TrimLeftDrops(s[1..]);
      forall k | 1 <= k < |s| - |TrimLeft(s)| ensures IsTrimmed(s[k]) {
        assert s[k] == s[1..][k - 1];
      }
    }
  }

  /** rtrim() removes only trimmed characters: everything after the prefix it keeps. */
  lemma {:induction false} TrimRightDrops(s: string)
    ensures forall k :: |TrimRight(s)| <= k < |s| ==> IsTrimmed(s[k])
    decreases |s|
  {
    if s != [] && IsTrimmed(s[|s| - 1]) {
      TrimRightDrops(s[..|s| - 1]);
      forall k | |TrimRight(s)| <= k < |s| - 1 ensures IsTrimmed(s[k]) {
        assert s[k] == s[..|s| - 1][k];
      }
    }
  }

  /** trim() with its default character list. */
  function Trim(s: string): (r: string)
    ensures r == [] || (!IsTrimmed(r[0]) && !IsTrimmed(r[|r| - 1]))
    ensures |r| <= |s|
  {
    TrimRight(TrimLeft(s))
  }

  /**
   * trim() keeps the slice of s between the trimmed characters at either
   * end: everything before and after it is a trimmed character.
   */
  lemma TrimIsSlice(s: string)
    ensures var i := |s| - |TrimLeft(s)|;
            var r := Trim(s);
            i + |r| <= |s| && r == s[i..i + |r|]
            && (forall k :: 0 <= k < i ==> IsTrimmed(s[k]))
            && (forall k :: i + |r| <= k < |s| ==> IsTrimmed(s[k]))
  {
    var t := TrimLeft(s);
    var r := TrimRight(t);
    var i := |s| - |t|;
    TrimLeftDrops(s);
    TrimRightDrops(t);
    assert r == s[i..i + |r|];
    forall k | i + |r| <= k < |s| ensures IsTrimmed(s[k]) {
      assert s[k] == t[k - i];
    }
  }

  function LowerChar(c: char): char {
    if 'A' <= c <= 'Z' then (c as int + 32) as char else c
  }

  /**
   * strtolower() as PHP 8 has it: each ASCII capital becomes its small
   * letter, every other character is kept.
   */
  function Lower(s: string): (r: string)
    ensures |r| == |s|
    ensures forall i :: 0 <= i < |r| ==> !('A' <= r[i] <= 'Z')
    ensures forall i :: 0 <= i < |s| && !('A' <= s[i] <= 'Z') ==> r[i] == s[i]
    ensures forall i :: 0 <= i < |s| && 'A' <= s[i] <= 'Z' ==> r[i] as int == s[i] as int + 32
  {
    seq(|s|, i requires 0 <= i < |s| => LowerChar(s[i]))
  }

  /** Lowering twice is lowering once. */
  lemma LowerIdempotent(s: string)
    ensures Lower(Lower(s)) == Lower(s)
  {
  }

  /**
   * The array union $a + $b: every key of a keeps its value and every key of
   * b that a lacks is added with b's value.
   */
  function ArrayUnion<K, V>(a: map<K, V>, b: map<K, V>): (r: map<K, V>)
    ensures r.Keys == a.Keys + b.Keys
    ensures forall k :: k in a ==> r[k] == a[k]
    ensures forall k :: k in b && k !in a ==> r[k] == b[k]
  {
    b + a
  }

  /** wp_parse_args($args, $defaults) on an array: the caller's arguments over the defaults. */
  function ParseArgs(args: map<string, Value>, defaults: map<string, Value>): (r: map<string, Value>)
    ensures r.Keys == args.Keys + defaults.Keys
    ensures forall k :: k in args ==> r[k] == args[k]
    ensures forall k :: k in defaults && k !in args ==> r[k] == defaults[k]
  {
    ArrayUnion(args, defaults)
  }
}
