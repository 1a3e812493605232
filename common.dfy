/** Values and string helpers shared by every controller and middleware model:
    optional values, JavaScript truthiness, whitespace trimming, ASCII case folding,
    substring search, splitting on a separator, JavaScript `slice` and `Math.ceil`
    of an integer quotient. */
module Common {

  datatype Option<+T> = None | Some(value: T)

  /** A loosely typed JavaScript value, as request bodies and query objects carry them. */
  datatype JsValue =
    | JsString(s: string)
    | JsNumber(n: int)
    | JsBool(b: bool)
    | JsNull
    | JsArray(items: seq<JsValue>)
    | JsObject(entries: seq<(string, JsValue)>)

  /** JavaScript truthiness of an optional string: present and not the empty string. */
  predicate Truthy(o: Option<string>) {
    o.Some? && o.value != ""
  }

  /** JavaScript's `length` of a string: its UTF-16 code units, two for each
      character beyond the Basic Multilingual Plane. */
  function JsLength(s: string): (n: nat)
    ensures |s| <= n <= 2 * |s|
    ensures n == |s| <==> forall i :: 0 <= i < |s| ==> s[i] as int <= 0xFFFF
  {
    if s == [] then 0
    else
      var rest := JsLength(s[..|s| - 1]);
      assert forall i :: 0 <= i < |s| - 1 ==> s[..|s| - 1][i] == s[i];
      rest + (if s[|s| - 1] as int > 0xFFFF then 2 else 1)
  }

  /** Code units add up over concatenation. */
  lemma {:induction false} JsLengthAppend(a: string, b: string)
    ensures JsLength(a + b) == JsLength(a) + JsLength(b)
    decreases |b|
  {
    if b != [] {
      var b' := b[..|b| - 1];
      JsLengthAppend(a, b');
      assert (a + b)[..|a + b| - 1] == a + b';
    } else {
      assert a + b == a;
    }
  }

  /** A character beyond the Basic Multilingual Plane counts twice: three
      emoji make a string of length 6. */
  lemma AstralCharactersCountTwice()
    ensures JsLength("\U{1F600}\U{1F600}\U{1F600}") == 6
    ensures |"\U{1F600}\U{1F600}\U{1F600}"| == 3
  {
    var e := "\U{1F600}";
    assert e[0] as int == 0x1F600;
    JsLengthAppend(e, e);
    JsLengthAppend(e + e, e);
    assert e + e + e == "\U{1F600}\U{1F600}\U{1F600}";
  }

  /** The outcome of a request guard: hand on to the next handler, or
      answer with a status code and a message. */
  datatype Guard = Pass | Deny(code: nat, message: string)

  /** The characters JavaScript's `trim` removes and `\s` matches. */
  predicate IsSpace(c: char) {
    c == ' ' || c == '\t' || c == '\n' || c == '\r' || c == '\U{0B}' || c == '\U{0C}'
    || c == '\U{A0}' || c == '\U{FEFF}' || c == '\U{1680}'
    || ('\U{2000}' <= c <= '\U{200A}')
    || c == '\U{2028}' || c == '\U{2029}' || c == '\U{202F}' || c == '\U{205F}' || c == '\U{3000}'
  }

  predicate AllSpace(s: string) {
    forall i :: 0 <= i < |s| ==> IsSpace(s[i])
  }

  /** Drops leading whitespace. */
  function TrimStart(s: string): string
    decreases |s|
  {
    if s != [] && IsSpace(s[0]) then TrimStart(s[1..]) else s
  }

  /** Drops trailing whitespace. */
  function TrimEnd(s: string): string
    decreases |s|
  {
    if s != [] && IsSpace(s[|s| - 1]) then TrimEnd(s[..|s| - 1]) else s
  }

  /** `TrimStart` removes exactly the leading run of whitespace. */
  lemma {:induction false} TrimStartSpec(s: string)
    ensures var r := TrimStart(s);
      && |r| <= |s| && r == s[|s| - |r|..]
      && (r == [] || !IsSpace(r[0]))
      && AllSpace(s[..|s| - |r|])
    decreases |s|
  {
    if s != [] && IsSpace(s[0]) {
      TrimStartSpec(s[1..]);
      var r := TrimStart(s);
      assert s[1..][..|s| - 1 - |r|] == s[1..|s| - |r|];
    }
  }

  /** `TrimEnd` removes exactly the trailing run of whitespace. */
  lemma {:induction false} TrimEndSpec(s: string)
    ensures var r := TrimEnd(s);
      && |r| <= |s| && r == s[..|r|]
      && (r == [] || !IsSpace(r[|r| - 1]))
      && AllSpace(s[|r|..])
    decreases |s|
  {
    if s != [] && IsSpace(s[|s| - 1]) {
      TrimEndSpec(s[..|s| - 1]);
      var r := TrimEnd(s);
      forall i | |r| <= i < |s| ensures IsSpace(s[i]) {
        if i < |s| - 1 {
          assert s[i] == s[..|s| - 1][|r|..][i - |r|];
        }
      }
    }
  }

  /** JavaScript `String.prototype.trim`. */
  function Trim(s: string): string
  {
    TrimEnd(TrimStart(s))
  }

  /** `trim` removes exactly a leading and a trailing run of whitespace: the
      result is a contiguous slice of the original, everything before and
      after it is whitespace, and it neither starts nor ends with whitespace. */
  lemma TrimSpec(s: string)
    ensures var r := Trim(s);
      |r| <= |s| && (r == [] || (!IsSpace(r[0]) && !IsSpace(r[|r| - 1])))
    ensures exists i, j :: 0 <= i <= j <= |s| && Trim(s) == s[i..j] && AllSpace(s[..i]) && AllSpace(s[j..])
  {
    TrimStartSpec(s);
    var a := TrimStart(s);
    TrimEndSpec(a);
    var r := Trim(s);
    var i := |s| - |a|;
    var j := i + |r|;
    assert a == s[i..];
    assert r == s[i..j];
    assert s[j..] == a[|r|..];
  }

  /** Trimming is a projection: a trimmed string trims to itself. */
  lemma TrimIdempotent(s: string)
    ensures Trim(Trim(s)) == Trim(s)
  {
    TrimSpec(s);
    var t := Trim(s);
    if t != [] {
      assert TrimStart(t) == t;
      assert TrimEnd(t) == t;
    }
  }

  /** A string trims to the empty string exactly when it is all whitespace. */
  lemma TrimEmptyIffAllSpace(s: string)
    ensures Trim(s) == [] <==> AllSpace(s)
  {
    TrimStartSpec(s);
    var a := TrimStart(s);
    TrimEndSpec(a);
    if Trim(s) == [] {
      assert AllSpace(a) by { assert a[|TrimEnd(a)|..] == a; }
      forall i | 0 <= i < |s| ensures IsSpace(s[i]) {
        if i < |s| - |a| {
          assert s[i] == s[..|s| - |a|][i];
        }
      }
    } else {
      var r := Trim(s);
      assert r[0] == s[|s| - |a|];
    }
  }

  /** ASCII case folding, as `toLowerCase` does for ASCII letters. */
  function LowerChar(c: char): (r: char)
    ensures 'A' <= c <= 'Z' ==> r != c && 'a' <= r <= 'z'
    ensures !('A' <= c <= 'Z') ==> r == c
  {
    if 'A' <= c <= 'Z' then (c as int - 'A' as int + 'a' as int) as char else c
  }

  function Lower(s: string): (r: string)
    ensures |r| == |s|
    ensures forall i :: 0 <= i < |s| ==> r[i] == LowerChar(s[i])
  {
    seq(|s|, i requires 0 <= i < |s| => LowerChar(s[i]))
  }

  /** ASCII lower-casing is idempotent. */
  lemma {:induction false} LowerIdempotent(s: string)
    ensures Lower(Lower(s)) == Lower(s)
  {
    forall i | 0 <= i < |s| ensures Lower(Lower(s))[i] == Lower(s)[i] {
      var c := s[i];
      if 'A' <= c <= 'Z' {
        assert 'a' <= LowerChar(c) <= 'z';
      }
    }
  }

  /** Case-insensitive equality as `a.toLowerCase() === b.toLowerCase()`. */
  predicate SameIgnoringCase(a: string, b: string) {
    Lower(a) == Lower(b)
  }

  predicate IsPrefix(p: string, s: string) {
    |p| <= |s| && s[..|p|] == p
  }

  /** `s.includes(sub)`. */
  predicate Contains(s: string, sub: string)
    decreases |s|
  {
    IsPrefix(sub, s) || (s != [] && Contains(s[1..], sub))
  }

  /** `sub` occurs in `s` starting at position `i`. */
  predicate OccursAt(s: string, sub: string, i: int) {
    0 <= i <= |s| - |sub| && s[i..i + |sub|] == sub
  }

  /** `Contains` holds exactly when `sub` occurs at some position of `s`. */
  lemma {:induction false} ContainsIffOccurs(s: string, sub: string)
    ensures Contains(s, sub) <==> exists i :: OccursAt(s, sub, i)
    decreases |s|
  {
    if IsPrefix(sub, s) {
      assert OccursAt(s, sub, 0);
    }
    if s != [] {
      ContainsIffOccurs(s[1..], sub);
      if Contains(s[1..], sub) {
        var i :| OccursAt(s[1..], sub, i);
        assert OccursAt(s, sub, i + 1);
      }
      if exists i :: OccursAt(s, sub, i) {
        var i :| OccursAt(s, sub, i);
        if i > 0 {
          assert OccursAt(s[1..], sub, i - 1);
        } else {
          assert IsPrefix(sub, s);
        }
      }
    } else {
      if exists i :: OccursAt(s, sub, i) {
        var i :| OccursAt(s, sub, i);
        assert IsPrefix(sub, s);
      }
    }
  }

  /** `s.endsWith(suffix)`. */
  predicate EndsWith(s: string, suffix: string) {
    |suffix| <= |s| && s[|s| - |suffix|..] == suffix
  }

  /** The joined pieces of `parts`, separated by `sep` (the inverse of `Split`). */
  function Join(parts: seq<string>, sep: char): string
    decreases |parts|
  {
    if |parts| == 0 then ""
    else if |parts| == 1 then parts[0]
    else parts[0] + [sep] + Join(parts[1..], sep)
  }

  /** `xs.join(sep)` for a string separator. */
  function JoinWith(xs: seq<string>, sep: string): string
    decreases |xs|
  {
    if |xs| == 0 then ""
    else if |xs| == 1 then xs[0]
    else xs[0] + sep + JoinWith(xs[1..], sep)
  }

  /** `s.split(sep)` for a one-character separator. */
  function Split(s: string, sep: char): seq<string>
    decreases |s|
  {
    if sep !in s then [s]
    else
      var i := IndexOf(s, sep);
      [s[..i]] + Split(s[i + 1..], sep)
  }

  /** Splitting gives at least one piece, no piece holds the separator, and
      joining the pieces back gives the string. */
  lemma {:induction false} SplitSpec(s: string, sep: char)
    ensures |Split(s, sep)| >= 1
    ensures forall i :: 0 <= i < |Split(s, sep)| ==> sep !in Split(s, sep)[i]
    ensures Join(Split(s, sep), sep) == s
    decreases |s|
  {
    if sep in s {
      var i := IndexOf(s, sep);
      var rest := Split(s[i + 1..], sep);
      SplitSpec(s[i + 1..], sep);
      SplitUnfold(s, sep);
      ConsPieces(s[..i], rest, sep);
      AroundIndex(s, i);
    }
  }

  /** One unfolding of `Split` at the first separator. */
  lemma SplitUnfold(s: string, sep: char)
    requires sep in s
    ensures Split(s, sep) == [s[..IndexOf(s, sep)]] + Split(s[IndexOf(s, sep) + 1..], sep)
  {
  }

  /** A string is the part before position `i`, the character there, and the rest. */
  lemma AroundIndex(s: string, i: nat)
    requires i < |s|
    ensures s == s[..i] + [s[i]] + s[i + 1..]
  {
    assert s[..i] + [s[i]] == s[..i + 1];
  }

  /** Putting a separator-free piece in front of separator-free pieces. */
  lemma ConsPieces(p: string, rest: seq<string>, sep: char)
    requires |rest| >= 1 && sep !in p
    requires forall k :: 0 <= k < |rest| ==> sep !in rest[k]
    ensures forall k :: 0 <= k < |[p] + rest| ==> sep !in ([p] + rest)[k]
    ensures Join([p] + rest, sep) == p + [sep] + Join(rest, sep)
  {
    var parts := [p] + rest;
    assert parts[1..] == rest;
    forall k | 0 <= k < |parts| ensures sep !in parts[k] {
      if k > 0 {
        assert parts[k] == rest[k - 1];
      }
    }
  }

  /** The first position of `c` in `s`. */
  function IndexOf(s: string, c: char): (i: nat)
    requires c in s
    ensures i < |s| && s[i] == c && c !in s[..i]
  {
    if s[0] == c then 0 else 1 + IndexOf(s[1..], c)
  }

  /** Splitting and joining back is the identity, and splitting a joined list of
      separator-free pieces gives the pieces back. */
  lemma {:induction false} SplitJoin(parts: seq<string>, sep: char)
    requires |parts| >= 1
    requires forall i :: 0 <= i < |parts| ==> sep !in parts[i]
    ensures Split(Join(parts, sep), sep) == parts
    decreases |parts|
  {
    if |parts| > 1 {
      SplitJoin(parts[1..], sep);
      SplitJoinStep(parts, sep);
    } else {
      assert parts == [parts[0]];
    }
  }

  /** One step of `SplitJoin`: the first separator of the joined text is the
      one after the first piece. */
  lemma SplitJoinStep(parts: seq<string>, sep: char)
    requires |parts| > 1 && sep !in parts[0]
    requires Split(Join(parts[1..], sep), sep) == parts[1..]
    ensures Split(Join(parts, sep), sep) == parts
  {
    var p, t := parts[0], Join(parts[1..], sep);
    var s := p + [sep] + t;
    assert Join(parts, sep) == s;
    SeparatedParts(p, sep, t);
    IndexOfFirst(s, sep, |p|);
    assert Split(s, sep) == [p] + Split(t, sep);
    assert parts == [p] + parts[1..];
  }

  lemma SeparatedParts(p: string, sep: char, t: string)
    ensures var s := p + [sep] + t;
      |p| < |s| && s[..|p|] == p && s[|p|] == sep && s[|p| + 1..] == t
  {
  }

  /** A position holding `c` with no `c` before it is the first position of `c`. */
  lemma {:induction false} IndexOfFirst(s: string, c: char, j: nat)
    requires j < |s| && s[j] == c && c !in s[..j]
    ensures c in s && IndexOf(s, c) == j
    decreases j
  {
    if j > 0 {
      assert s[0] == s[..j][0];
      assert s[1..][..j - 1] == s[..j][1..];
      IndexOfFirst(s[1..], c, j - 1);
    }
  }

  /** The number of occurrences of `c` in `s`. */
  function Occurrences(s: string, c: char): nat
  {
    if s == [] then 0 else (if s[0] == c then 1 else 0) + Occurrences(s[1..], c)
  }

  /** `s.split(sep)` yields one more piece than there are separators. */
  lemma {:induction false} SplitCount(s: string, sep: char)
    ensures |Split(s, sep)| == Occurrences(s, sep) + 1
    decreases |s|
  {
    if sep !in s {
      NoOccurrences(s, sep);
    } else {
      var i := IndexOf(s, sep);
      assert |Split(s, sep)| == 1 + |Split(s[i + 1..], sep)|;
      SplitCount(s[i + 1..], sep);
      OccurrencesSplit(s, sep, i);
    }
  }

  lemma {:induction false} NoOccurrences(s: string, c: char)
    requires c !in s
    ensures Occurrences(s, c) == 0
    decreases |s|
  {
    if s != [] {
      NoOccurrences(s[1..], c);
    }
  }

  lemma {:induction false} OccurrencesSplit(s: string, c: char, i: nat)
    requires i < |s| && s[i] == c && c !in s[..i]
    ensures Occurrences(s, c) == 1 + Occurrences(s[i + 1..], c)
    decreases i
  {
    if i > 0 {
      assert s[1..][..i - 1] == s[..i][1..];
      OccurrencesSplit(s[1..], c, i - 1);
      assert s[1..][i..] == s[i + 1..];
      assert s[0] != c by { assert s[..i][0] == s[0]; }
    }
  }

  /** JavaScript's reading of a `slice` index against a length: negative
      indices count from the end, and both ends are clamped to the length. */
  function SliceIndex(i: int, len: nat): (r: nat)
    ensures r <= len
    ensures 0 <= i <= len ==> r == i
  {
    if i < 0 then (if len + i < 0 then 0 else len + i)
    else if i > len then len
    else i
  }

  /** `s.slice(start, end)`. */
  function JsSlice<T>(s: seq<T>, start: int, end: int): (r: seq<T>)
    ensures |r| <= |s|
  {
    var a := SliceIndex(start, |s|);
    var b := SliceIndex(end, |s|);
    if a < b then s[a..b] else []
  }

  /** For a non-negative window, `slice` returns exactly the elements whose
      index lies in [start, end). */
  lemma JsSliceWindow<T>(s: seq<T>, start: int, end: int)
    requires 0 <= start <= end
    ensures |JsSlice(s, start, end)| == (if end <= |s| then end else |s|) - (if start <= |s| then start else |s|)
    ensures forall k :: 0 <= k < |JsSlice(s, start, end)| ==> JsSlice(s, start, end)[k] == s[start + k]
  {
  }

  /** `Math.ceil(a / b)` for a non-negative count and a non-zero integer divisor. */
  function CeilDiv(a: nat, b: int): (q: int)
    requires b != 0
    ensures b > 0 ==> (q - 1) * b < a <= q * b
    ensures b < 0 ==> q * b <= a < (q - 1) * b
  {
    if b > 0 then (a + b - 1) / b else -(a / -b)
  }

  /** Decimal rendering of a natural number, as a template literal prints it. */
  function NatToString(n: nat): (r: string)
    ensures |r| >= 1
    ensures forall i :: 0 <= i < |r| ==> '0' <= r[i] <= '9'
  {
    if n < 10 then [Digit(n)] else NatToString(n / 10) + [Digit(n % 10)]
  }

  function Digit(d: nat): (c: char)
    requires d < 10
    ensures '0' <= c <= '9'
  {
    ('0' as int + d) as char
  }

  /** The number of elements of `s` that satisfy `p`. */
  function CountWhere<T>(s: seq<T>, p: T -> bool): (n: nat)
    ensures n <= |s|
  {
    if s == [] then 0 else CountWhere(s[..|s| - 1], p) + (if p(s[|s| - 1]) then 1 else 0)
  }

  /** The elements of `s` that satisfy `p`, in order. */
  function Filter<T>(s: seq<T>, p: T -> bool): seq<T>
  {
    if s == [] then [] else Filter(s[..|s| - 1], p) + (if p(s[|s| - 1]) then [s[|s| - 1]] else [])
  }

  /** Filtering keeps as many elements as satisfy the predicate, each taken
      from the input and satisfying it. */
  lemma {:induction false} FilterSpec<T>(s: seq<T>, p: T -> bool)
    ensures |Filter(s, p)| == CountWhere(s, p)
    ensures forall x :: x in Filter(s, p) ==> x in s && p(x)
    decreases |s|
  {
    if s != [] {
      FilterSpec(s[..|s| - 1], p);
    }
  }

  /** Filtering keeps exactly the elements that satisfy the predicate. */
  lemma {:induction false} FilterComplete<T>(s: seq<T>, p: T -> bool, x: T)
    requires x in s && p(x)
    ensures x in Filter(s, p)
    decreases |s|
  {
    if s[|s| - 1] != x {
      assert x in s[..|s| - 1] by {
        var k :| 0 <= k < |s| && s[k] == x;
        assert k < |s| - 1;
        assert s[..|s| - 1][k] == x;
      }
      FilterComplete(s[..|s| - 1], p, x);
    }
  }

  // ---------------------------------------------------------------------------
  // JavaScript objects as association lists in key-insertion order
  // ---------------------------------------------------------------------------

  /** The value stored under `k`, if any (the first entry with that key). */
  function AssocGet<V>(m: seq<(string, V)>, k: string): Option<V>
  {
    if m == [] then None else if m[0].0 == k then Some(m[0].1) else AssocGet(m[1..], k)
  }

  /** `obj[k] = v`: an existing key keeps its position and takes the new
      value; a new key is appended. */
  function AssocPut<V>(m: seq<(string, V)>, k: string, v: V): seq<(string, V)>
  {
    if m == [] then [(k, v)]
    else if m[0].0 == k then [(k, v)] + m[1..]
    else [m[0]] + AssocPut(m[1..], k, v)
  }

  /** After `obj[k] = v`, `k` reads `v`, every other key reads what it read
      before, and the object grew by one entry exactly when `k` was new. */
  lemma {:induction false} AssocPutSpec<V>(m: seq<(string, V)>, k: string, v: V)
    ensures AssocGet(AssocPut(m, k, v), k) == Some(v)
    ensures forall j :: j != k ==> AssocGet(AssocPut(m, k, v), j) == AssocGet(m, j)
    ensures |AssocPut(m, k, v)| == |m| + (if AssocGet(m, k).None? then 1 else 0)
    decreases |m|
  {
    if m != [] && m[0].0 != k {
      AssocPutSpec(m[1..], k, v);
    }
  }

  /** No key occurs twice. */
  predicate UniqueKeys<V>(m: seq<(string, V)>) {
    forall i, j :: 0 <= i < j < |m| ==> m[i].0 != m[j].0
  }

  lemma {:induction false} AssocGetIn<V>(m: seq<(string, V)>, k: string)
    ensures AssocGet(m, k).Some? <==> exists i :: 0 <= i < |m| && m[i].0 == k
    decreases |m|
  {
    if m != [] {
      AssocGetIn(m[1..], k);
      if exists i :: 0 <= i < |m| && m[i].0 == k {
        var i :| 0 <= i < |m| && m[i].0 == k;
        if i > 0 {
          assert m[1..][i - 1].0 == k;
        }
      }
      if exists i :: 0 <= i < |m[1..]| && m[1..][i].0 == k {
        var i :| 0 <= i < |m[1..]| && m[1..][i].0 == k;
        assert m[i + 1].0 == k;
      }
    }
  }

  /** Assignment never creates a duplicate key. */
  lemma {:induction false} AssocPutUnique<V>(m: seq<(string, V)>, k: string, v: V)
    requires UniqueKeys(m)
    ensures UniqueKeys(AssocPut(m, k, v))
    decreases |m|
  {
    if m != [] && m[0].0 != k {
      AssocPutUnique(m[1..], k, v);
      AssocPutSpec(m[1..], k, v);
      var r := AssocPut(m[1..], k, v);
      forall j | 0 <= j < |r| ensures r[j].0 != m[0].0 {
        AssocGetIn(r, r[j].0);
        if r[j].0 != k {
          AssocGetIn(m[1..], r[j].0);
          var i :| 0 <= i < |m[1..]| && m[1..][i].0 == r[j].0;
          assert m[i + 1].0 == r[j].0;
        }
      }
    }
  }
}
