/**
 * The Python view of a value decoded by `json.loads`: the handful of
 * builtins the hot-board scraper and the proxy pool apply to such values
 * (truthiness, `str()`, `repr()`, `dict.get`, `int()`), written out so that
 * their edge cases are explicit.
 */
module PyValue {

  datatype Option<+T> = None | Some(value: T)

  /** A JSON value as Python sees it after `json.loads`. A JSON object is the
      list of its members in document order. Floats are not modelled. */
  datatype Value =
    | Null
    | Bool(b: bool)
    | Int(i: int)
    | Str(s: string)
    | List(items: seq<Value>)
    | Dict(members: seq<(string, Value)>)

  /** Python truthiness: `None`, `False`, `0`, `''`, `[]` and `{}` are false. */
  predicate Truthy(v: Value) {
    match v
    case Null => false
    case Bool(b) => b
    case Int(i) => i != 0
    case Str(s) => s != ""
    case List(xs) => xs != []
    case Dict(ms) => ms != []
  }

  /** Whether some member of an object has the given key (`key in d`). */
  predicate HasKey(members: seq<(string, Value)>, key: string) {
    exists k :: 0 <= k < |members| && members[k].0 == key
  }

  /** `d[key]` for the dict that `json.loads` builds: when a key is repeated,
      the last member wins. None when the key is absent. */
  function Lookup(members: seq<(string, Value)>, key: string): (r: Option<Value>)
    ensures r.None? <==> !HasKey(members, key)
    ensures r.Some? ==> exists k :: 0 <= k < |members| && members[k] == (key, r.value) &&
                                    forall j :: k < j < |members| ==> members[j].0 != key
  {
    if members == [] then None
    else if members[|members| - 1].0 == key then Some(members[|members| - 1].1)
    else
      var r := Lookup(members[..|members| - 1], key);
      assert forall j :: 0 <= j < |members| - 1 ==> members[..|members| - 1][j] == members[j];
      r
  }

  /** `d.get(key, default)`. */
  function GetOr(members: seq<(string, Value)>, key: string, default: Value): (r: Value)
    ensures !HasKey(members, key) ==> r == default
    ensures HasKey(members, key) ==> Lookup(members, key) == Some(r)
  {
    match Lookup(members, key)
    case Some(v) => v
    case None => default
  }

  // ----- decimal digits -------------------------------------------------------

  predicate IsDigit(c: char) {
    '0' <= c <= '9'
  }

  function DigitChar(d: nat): (c: char)
    requires d < 10
    ensures IsDigit(c) && c as int - '0' as int == d
  {
    (d + '0' as int) as char
  }

  /** The decimal numeral of `n`, without leading zeros. */
  function NatToString(n: nat): string
    decreases n
  {
    if n < 10 then [DigitChar(n)] else NatToString(n / 10) + [DigitChar(n % 10)]
  }

  /** `str(i)` for a Python int. */
  function IntToString(i: int): string {
    if i < 0 then "-" + NatToString(-i) else NatToString(i)
  }

  // ----- str() and repr() -----------------------------------------------------

  /** The items of a container display, separated by ", ". */
  function Join(parts: seq<string>): string {
    if |parts| == 0 then ""
    else if |parts| == 1 then parts[0]
    else parts[0] + ", " + Join(parts[1..])
  }

  /** `repr(v)`. Strings are quoted with single quotes; escaping is not modelled. */
  function Repr(v: Value): (r: string)
    ensures r != []
    decreases v
  {
    match v
    case Null => "None"
    case Bool(b) => if b then "True" else "False"
    case Int(i) => IntToString(i)
    case Str(s) => "'" + s + "'"
    case List(xs) =>
      "[" + Join(seq(|xs|, k requires 0 <= k < |xs| => Repr(xs[k]))) + "]"
    case Dict(ms) =>
      "{" + Join(seq(|ms|, k requires 0 <= k < |ms| => "'" + ms[k].0 + "': " + Repr(ms[k].1))) + "}"
  }

  /** The repr of a two-member dict, written out. */
  lemma DictReprOfTwo(k1: string, v1: Value, k2: string, v2: Value)
    ensures Repr(Dict([(k1, v1), (k2, v2)])) ==
      "{" + "'" + k1 + "': " + Repr(v1) + ", " + "'" + k2 + "': " + Repr(v2) + "}"
  {
    var ms := [(k1, v1), (k2, v2)];
    var parts := seq(|ms|, k requires 0 <= k < |ms| => "'" + ms[k].0 + "': " + Repr(ms[k].1));
    assert |parts| == 2;
    assert parts[0] == "'" + k1 + "': " + Repr(v1);
    assert parts[1] == "'" + k2 + "': " + Repr(v2);
    assert Join(parts) == parts[0] + ", " + parts[1];
  }

  /** `str(v)`: a string is itself, everything else is its repr. */
  function ToStr(v: Value): string {
    if v.Str? then v.s else Repr(v)
  }

  /** `str(v)` is empty only for the empty string. */
  lemma ToStrEmptyIff(v: Value)
    ensures ToStr(v) == "" <==> v == Str("")
  {
  }

  /** The `str()` of a truthy value is never empty. */
  lemma TruthyToStrNonEmpty(v: Value)
    requires Truthy(v)
    ensures ToStr(v) != ""
  {
    ToStrEmptyIff(v);
  }

  // ----- int() ----------------------------------------------------------------

  /** The ASCII whitespace `int()` strips: space, tab, line feed, vertical
      tab, form feed and carriage return. */
  predicate IsSpace(c: char) {
    c == ' ' || '\t' <= c <= '\r'
  }

  function StripLeft(s: string): (r: string)
    ensures |r| <= |s| && r == s[|s| - |r|..]
    ensures r != [] ==> !IsSpace(r[0])
    ensures forall k :: 0 <= k < |s| - |r| ==> IsSpace(s[k])
  {
    if s != [] && IsSpace(s[0]) then StripLeft(s[1..]) else s
  }

  function StripRight(s: string): (r: string)
    ensures |r| <= |s| && r == s[..|r|]
    ensures r != [] ==> !IsSpace(r[|r| - 1])
    ensures forall k :: |r| <= k < |s| ==> IsSpace(s[k])
  {
    if s != [] && IsSpace(s[|s| - 1]) then StripRight(s[..|s| - 1]) else s
  }

  /** `s.strip()`. */
  function Strip(s: string): string {
    StripRight(StripLeft(s))
  }

  /** What `int()` accepts after the sign: digits, with single underscores
      allowed between two digits. */
  predicate DigitGroups(d: string) {
    && |d| > 0
    && IsDigit(d[0])
    && IsDigit(d[|d| - 1])
    && (forall k :: 0 <= k < |d| ==> IsDigit(d[k]) || d[k] == '_')
    && (forall k :: 0 <= k < |d| - 1 ==> IsDigit(d[k]) || IsDigit(d[k + 1]))
  }

  /** The number the digits of `d` spell, underscores ignored. */
  function DigitsValue(d: string): nat {
    if d == [] then 0
    else if IsDigit(d[|d| - 1]) then DigitsValue(d[..|d| - 1]) * 10 + (d[|d| - 1] as int - '0' as int)
    else DigitsValue(d[..|d| - 1])
  }

  /** `int(s)` for a string in base 10: surrounding whitespace, an optional
      sign, then digit groups. None where Python raises ValueError. */
  function ParseInt(s: string): (r: Option<int>)
    ensures r.Some? ==> exists k :: 0 <= k < |s| && IsDigit(s[k])
  {
    var t := Strip(s);
    assert StripLeft(s) == s[|s| - |StripLeft(s)|..];
    assert t == s[|s| - |StripLeft(s)|..][..|t|];
    if |t| > 0 && (t[0] == '+' || t[0] == '-') then
      if DigitGroups(t[1..]) then
        assert t[1..][0] == s[|s| - |StripLeft(s)| + 1];
        var n: int := DigitsValue(t[1..]);
        Some(if t[0] == '-' then -n else n)
      else None
    else if DigitGroups(t) then
      assert t[0] == s[|s| - |StripLeft(s)|];
      Some(DigitsValue(t))
    else None
  }

  /** `int(v)`: ints are themselves, booleans are 0 or 1, strings are parsed;
      None where Python raises (TypeError for None, lists and dicts). */
  function ToInt(v: Value): Option<int> {
    match v
    case Int(i) => Some(i)
    case Bool(b) => Some(if b then 1 else 0)
    case Str(s) => ParseInt(s)
    case _ => None
  }

  predicate AllDigits(d: string) {
    forall k :: 0 <= k < |d| ==> IsDigit(d[k])
  }

  lemma {:induction false} NatToStringDigits(n: nat)
    ensures |NatToString(n)| > 0 && AllDigits(NatToString(n))
    ensures DigitsValue(NatToString(n)) == n
    decreases n
  {
    if n >= 10 {
      NatToStringDigits(n / 10);
      var s := NatToString(n / 10) + [DigitChar(n % 10)];
      assert s[..|s| - 1] == NatToString(n / 10);
    }
  }

  lemma StripUnpadded(t: string)
    requires t != [] && !IsSpace(t[0]) && !IsSpace(t[|t| - 1])
    ensures Strip(t) == t
  {
  }

  /** `int(str(n)) == n`: parsing inverts printing. */
  lemma ParseIntOfIntToString(n: int)
    ensures ParseInt(IntToString(n)) == Some(n)
  {
    if n < 0 {
      ParseIntOfNegative(n);
    } else {
      ParseIntOfNatural(n);
    }
  }

  lemma ParseIntOfNatural(n: nat)
    ensures ParseInt(NatToString(n)) == Some(n)
  {
    NatToStringDigits(n);
    var d := NatToString(n);
    NumeralGroups(d);
    StripUnpadded(d);
    assert Strip(d) == d;
  }

  lemma ParseIntOfNegative(n: int)
    requires n < 0
    ensures ParseInt(IntToString(n)) == Some(n)
  {
    NatToStringDigits(-n);
    var d := NatToString(-n);
    NumeralGroups(d);
    ParseIntOfMinus(d);
  }

  /** A non-empty run of digits is a digit group. */
  lemma NumeralGroups(d: string)
    requires |d| > 0 && AllDigits(d)
    ensures DigitGroups(d) && !IsSpace(d[0]) && !IsSpace(d[|d| - 1])
  {
  }

  /** `int("-" + d)` for digit groups `d`: the negated value. */
  lemma ParseIntOfMinus(d: string)
    requires DigitGroups(d)
    ensures var v: int := DigitsValue(d); ParseInt("-" + d) == Some(-v)
  {
    var t := "-" + d;
    assert t[0] == '-' && t[|t| - 1] == d[|d| - 1];
    StripUnpadded(t);
    assert Strip(t) == t;
    assert t[1..] == d;
  }

  /** `int()` strips only ASCII whitespace: a separator character U+001C to
      U+001F before the digits, which `str.isspace` accepts, makes it raise. */
  lemma ParseIntKeepsLeadingSeparator(d: char)
    requires '\U{1c}' <= d <= '\U{1f}'
    ensures ParseInt([d] + "5") == None
  {
    var a := [d] + "5";
    assert a[0] == d && a[1] == '5' && |a| == 2;
    assert !IsDigit(d) && d != '+' && d != '-';
    StripUnpadded(a);
    assert Strip(a) == a;
    assert !DigitGroups(a);
  }

  /** The same for a separator character after the digits. */
  lemma ParseIntKeepsTrailingSeparator(d: char)
    requires '\U{1c}' <= d <= '\U{1f}'
    ensures ParseInt("5" + [d]) == None
  {
    var b := "5" + [d];
    assert b[0] == '5' && b[1] == d && |b| == 2;
    StripUnpadded(b);
    assert !DigitGroups(b);
  }

  /** A string with no decimal digit in it is not a number. */
  lemma ParseIntNeedsDigit(s: string)
    requires forall k :: 0 <= k < |s| ==> !IsDigit(s[k])
    ensures ParseInt(s) == None
  {
  }

  // ----- `in` and `split` on strings --------------------------------------------

  predicate OccursAt(s: string, pat: string, i: nat) {
    i + |pat| <= |s| && s[i..i + |pat|] == pat
  }

  /** The first occurrence of `pat` in `s` at or after `i`. */
  function FindFrom(s: string, pat: string, i: nat): (r: Option<nat>)
    ensures r.Some? ==> i <= r.value && OccursAt(s, pat, r.value)
    ensures forall j :: i <= j && (r.None? || j < r.value) ==> !OccursAt(s, pat, j)
    decreases |s| - i
  {
    if i + |pat| > |s| then None
    else if s[i..i + |pat|] == pat then Some(i)
    else FindFrom(s, pat, i + 1)
  }

  /** `s.find(pat)`, None for -1. */
  function Find(s: string, pat: string): Option<nat> {
    FindFrom(s, pat, 0)
  }

  /** `pat in s`. */
  predicate Contains(s: string, pat: string) {
    Find(s, pat).Some?
  }

  lemma ContainsIff(s: string, pat: string)
    ensures Contains(s, pat) <==> exists i: nat :: OccursAt(s, pat, i)
  {
    if !Contains(s, pat) {
      forall i: nat ensures !OccursAt(s, pat, i) {
      }
    }
  }

  /** An occurrence in a suffix is an occurrence in the whole. */
  lemma OccursInSuffix(s: string, pat: string, off: nat, j: int)
    requires off <= |s|
    ensures 0 <= j && OccursAt(s[off..], pat, j) ==> OccursAt(s, pat, off + j)
  {
    if 0 <= j && OccursAt(s[off..], pat, j) {
      assert s[off + j..off + j + |pat|] == s[off..][j..j + |pat|];
    }
  }

  /** Where the last piece of `s.split(sep)` begins, scanning from `i` with the
      current piece begun at `start`. Split scans left to right and resumes
      after each occurrence of `sep`, so occurrences never overlap. */
  function SplitStart(s: string, sep: string, start: nat, i: nat): (k: nat)
    requires |sep| > 0 && start <= i <= |s|
    ensures start <= k <= |s|
    decreases |s| - i
  {
    if i + |sep| > |s| then start
    else if OccursAt(s, sep, i) then SplitStart(s, sep, i + |sep|, i + |sep|)
    else SplitStart(s, sep, start, i + 1)
  }

  /** No occurrence of `sep` begins at or after where the scan ends. */
  lemma {:induction false} SplitStartNoneAfter(s: string, sep: string, start: nat, i: nat)
    requires |sep| > 0 && start <= i <= |s|
    requires forall j :: start <= j < i ==> !OccursAt(s, sep, j)
    ensures forall j :: SplitStart(s, sep, start, i) <= j ==> !OccursAt(s, sep, j)
    decreases |s| - i
  {
    if i + |sep| > |s| {
      forall j | i <= j ensures !OccursAt(s, sep, j) {
      }
    } else if OccursAt(s, sep, i) {
      SplitStartNoneAfter(s, sep, i + |sep|, i + |sep|);
    } else {
      SplitStartNoneAfter(s, sep, start, i + 1);
    }
  }

  /** The scan ends just after an occurrence of `sep`, or at 0 when there is
      none. */
  lemma {:induction false} SplitStartAfterSeparator(s: string, sep: string, start: nat, i: nat)
    requires |sep| > 0 && start <= i <= |s|
    requires start == 0 || (start >= |sep| && OccursAt(s, sep, start - |sep|))
    ensures var k := SplitStart(s, sep, start, i);
      k == 0 || (k >= |sep| && OccursAt(s, sep, k - |sep|))
    decreases |s| - i
  {
    if i + |sep| <= |s| {
      if OccursAt(s, sep, i) {
        SplitStartAfterSeparator(s, sep, i + |sep|, i + |sep|);
      } else {
        SplitStartAfterSeparator(s, sep, start, i + 1);
      }
    }
  }

  /** `s.split(sep)[-1]`. */
  function LastPiece(s: string, sep: string): string
    requires |sep| > 0
  {
    s[SplitStart(s, sep, 0, 0)..]
  }

  /** The last piece is a suffix that holds no separator; it is all of `s`
      when `s` holds none, and otherwise follows an occurrence of one. */
  lemma LastPieceFollowsSeparator(s: string, sep: string)
    requires |sep| > 0
    ensures var r := LastPiece(s, sep);
      && |r| <= |s| && r == s[|s| - |r|..]
      && !Contains(r, sep)
      && (!Contains(s, sep) ==> r == s)
      && (Contains(s, sep) ==> |r| + |sep| <= |s| && OccursAt(s, sep, |s| - |r| - |sep|))
  {
    var k := SplitStart(s, sep, 0, 0);
    SplitStartNoneAfter(s, sep, 0, 0);
    SplitStartAfterSeparator(s, sep, 0, 0);
    var r := s[k..];
    forall j: nat ensures !OccursAt(r, sep, j) {
      OccursInSuffix(s, sep, k, j);
    }
    ContainsIff(s, sep);
    ContainsIff(r, sep);
  }

  /** Scanning past positions holding no separator up to an occurrence at `p`
      lands just after it. */
  lemma {:induction false} SplitStartSkipsTo(s: string, sep: string, start: nat, i: nat, p: nat)
    requires |sep| > 0 && start <= i <= p
    requires forall j :: i <= j < p ==> !OccursAt(s, sep, j)
    requires OccursAt(s, sep, p)
    ensures SplitStart(s, sep, start, i) == SplitStart(s, sep, p + |sep|, p + |sep|)
    decreases p - i
  {
    if i < p {
      assert !OccursAt(s, sep, i);
      SplitStartSkipsTo(s, sep, start, i + 1, p);
    }
  }

  /** With no separator from `i` on, the piece begun at `start` is the last. */
  lemma {:induction false} SplitStartStays(s: string, sep: string, start: nat, i: nat)
    requires |sep| > 0 && start <= i <= |s|
    requires forall j :: i <= j ==> !OccursAt(s, sep, j)
    ensures SplitStart(s, sep, start, i) == start
    decreases |s| - i
  {
    if i + |sep| <= |s| {
      assert !OccursAt(s, sep, i);
      SplitStartStays(s, sep, start, i + 1);
    }
  }

  /** When the first occurrence of `sep` is at `p` and none begins after it
      ends, the last piece is what follows it, whatever overlaps it. */
  lemma LastPieceAfterOnly(s: string, sep: string, p: nat)
    requires |sep| > 0 && OccursAt(s, sep, p)
    requires forall j: nat :: j < p ==> !OccursAt(s, sep, j)
    requires forall j: nat :: j >= p + |sep| ==> !OccursAt(s, sep, j)
    ensures LastPiece(s, sep) == s[p + |sep|..]
  {
    var k := p + |sep|;
    assert k <= |s|;
    SplitStartSkipsTo(s, sep, 0, 0, p);
    SplitStartStays(s, sep, k, k);
    assert SplitStart(s, sep, 0, 0) == k;
  }

  /** `s.split(c)[0]`: the text before the first `c`. */
  function BeforeFirst(s: string, c: char): (r: string)
    ensures |r| <= |s| && r == s[..|r|]
    ensures c !in r
    ensures |r| == |s| || s[|r|] == c
  {
    if s == [] || s[0] == c then []
    else [s[0]] + BeforeFirst(s[1..], c)
  }
}
