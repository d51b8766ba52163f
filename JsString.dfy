/**
 * The JavaScript string built-ins the core relies on, written out over `seq<char>`:
 * `split` on one character, `trim` (over an ASCII whitespace set), `toLowerCase`
 * (ASCII letters only), `includes`, `replace(/c/g, '')` and the decimal rendering of
 * an index inside a template literal.
 */
module JsString {

  /** The whitespace `trim` removes, restricted to ASCII: space, tab, LF, VT, FF, CR. */
  predicate IsSpace(c: char) {
    c == ' ' || c == '\t' || c == '\n' || c == '\r' || c == '\U{000B}' || c == '\U{000C}'
  }

  /** Every character of `s` is whitespace (so `s.trim()` is the empty, falsy string). */
  predicate IsBlank(s: string) {
    forall k :: 0 <= k < |s| ==> IsSpace(s[k])
  }

  /** The number of whitespace characters `s` starts with: all of them are spaces, and the next one is not. */
  function Lead(s: string): (n: nat)
    ensures n <= |s|
    ensures forall k :: 0 <= k < n ==> IsSpace(s[k])
    ensures n < |s| ==> !IsSpace(s[n])
  {
    if s != [] && IsSpace(s[0]) then
      var n := 1 + Lead(s[1..]);
      assert forall k :: 1 <= k < n ==> s[k] == s[1..][k - 1];
      n
    else 0
  }

  /** The number of whitespace characters `s` ends with: all of them are spaces, and the one before is not. */
  function Trail(s: string): (n: nat)
    ensures n <= |s|
    ensures forall k :: |s| - n <= k < |s| ==> IsSpace(s[k])
    ensures n < |s| ==> !IsSpace(s[|s| - 1 - n])
  {
    if s != [] && IsSpace(s[|s| - 1]) then
      var n := 1 + Trail(s[..|s| - 1]);
      assert forall k :: |s| - n <= k < |s| - 1 ==> s[k] == s[..|s| - 1][k];
      n
    else 0
  }

  /** Leading whitespace removed. */
  function TrimStart(s: string): string {
    s[Lead(s)..]
  }

  /** Trailing whitespace removed. */
  function TrimEnd(s: string): string {
    s[..|s| - Trail(s)]
  }

  /**
   * `s.trim()`: the part of `s` after its leading and before its trailing whitespace,
   * with whitespace on neither end; empty exactly when `s` is blank.
   */
  function Trim(s: string): (r: string)
    ensures Lead(s) + |r| <= |s| && r == s[Lead(s)..Lead(s) + |r|]
    ensures IsBlank(s[..Lead(s)]) && IsBlank(s[Lead(s) + |r|..])
    ensures r == [] <==> IsBlank(s)
    ensures r != [] ==> !IsSpace(r[0]) && !IsSpace(r[|r| - 1])
  {
    var a := Lead(s);
    var t := TrimStart(s);
    var b := Trail(t);
    CutSlice(s, a, t, b);
    CutEmpty(s, a, t, b);
    CutEnds(s, a, t, b);
    TrimEnd(t)
  }

  /** Cutting `b` characters off the suffix `s[a..]` leaves the slice `s[a..e]`, followed in `s` by what was cut. */
  lemma CutSlice(s: string, a: nat, t: string, b: nat)
    requires a <= |s| && t == s[a..] && b <= |t|
    requires forall k :: |t| - b <= k < |t| ==> IsSpace(t[k])
    ensures a + (|t| - b) <= |s| && t[..|t| - b] == s[a..a + (|t| - b)]
    ensures IsBlank(s[a + (|t| - b)..])
  {
    var e := a + (|t| - b);
    forall k | 0 <= k < |s[e..]| ensures IsSpace(s[e..][k]) {
      assert s[e..][k] == t[e + k - a];
    }
  }

  /** Nothing is left between the two whitespace runs exactly when `s` is all whitespace. */
  lemma CutEmpty(s: string, a: nat, t: string, b: nat)
    requires a <= |s| && t == s[a..] && b <= |t|
    requires forall k :: 0 <= k < a ==> IsSpace(s[k])
    requires a < |s| ==> !IsSpace(s[a])
    requires forall k :: |t| - b <= k < |t| ==> IsSpace(t[k])
    ensures |t| - b == 0 <==> IsBlank(s)
  {
  }

  /** What is left between the two whitespace runs starts and ends with a non-space. */
  lemma CutEnds(s: string, a: nat, t: string, b: nat)
    requires a <= |s| && t == s[a..] && b <= |t|
    requires a < |s| ==> !IsSpace(s[a])
    requires b < |t| ==> !IsSpace(t[|t| - 1 - b])
    ensures |t| - b > 0 ==> !IsSpace(s[a]) && !IsSpace(s[a + (|t| - b) - 1])
  {
    if |t| > b {
      assert s[a + (|t| - b) - 1] == t[|t| - 1 - b];
    }
  }

  /** A string with no whitespace at either end is its own trim. */
  lemma TrimOfTrimmed(s: string)
    requires s == [] || (!IsSpace(s[0]) && !IsSpace(s[|s| - 1]))
    ensures Trim(s) == s
  {
  }

  /** Leading whitespace before a part that starts with a non-space is exactly what `TrimStart` removes. */
  lemma {:induction false} TrimStartOf(p: string, m: string)
    requires IsBlank(p) && (m == [] || !IsSpace(m[0]))
    ensures TrimStart(p + m) == m
  {
    if p != [] {
      assert (p + m)[1..] == p[1..] + m;
      TrimStartOf(p[1..], m);
    } else {
      assert p + m == m;
    }
  }

  /** Trailing whitespace after a part that ends with a non-space is exactly what `TrimEnd` removes. */
  lemma {:induction false} TrimEndOf(m: string, q: string)
    requires IsBlank(q) && (m == [] || !IsSpace(m[|m| - 1]))
    ensures TrimEnd(m + q) == m
  {
    if q != [] {
      var q' := q[..|q| - 1];
      assert (m + q)[..|m + q| - 1] == m + q';
      TrimEndOf(m, q');
    } else {
      assert m + q == m;
    }
  }

  /** Trimming a non-space-ended part padded with whitespace on both sides gives that part. */
  lemma TrimPadded(p: string, m: string, q: string)
    requires IsBlank(p) && IsBlank(q)
    requires m != [] && !IsSpace(m[0]) && !IsSpace(m[|m| - 1])
    ensures Trim(p + m + q) == m
  {
    assert p + m + q == p + (m + q);
    TrimStartOf(p, m + q);
    TrimEndOf(m, q);
  }

  /** Trimming twice is trimming once. */
  lemma TrimIdempotent(s: string)
    ensures Trim(Trim(s)) == Trim(s)
  {
    TrimOfTrimmed(Trim(s));
  }

  /** `s.replace(/c/g, '')`: every occurrence of `c` deleted, everything else kept in order. */
  function RemoveChar(s: string, c: char): (r: string)
    ensures c !in r
    ensures |r| <= |s|
    ensures forall x :: x in r <==> x in s && x != c
  {
    if s == [] then [] else (if s[0] == c then [] else [s[0]]) + RemoveChar(s[1..], c)
  }

  /** Deletion works piecewise: deleting from a concatenation deletes from each part. */
  lemma {:induction false} RemoveCharAppend(a: string, b: string, c: char)
    ensures RemoveChar(a + b, c) == RemoveChar(a, c) + RemoveChar(b, c)
  {
    if a == [] {
      assert a + b == b;
    } else {
      assert (a + b)[0] == a[0] && (a + b)[1..] == a[1..] + b;
      RemoveCharAppend(a[1..], b, c);
    }
  }

  /** On one character, deletion drops it when it is `c` and keeps it otherwise. */
  lemma RemoveCharSingle(x: char, c: char)
    ensures RemoveChar([x], c) == if x == c then [] else [x]
  {
    assert [x][1..] == [];
  }

  /** Deleting `c` from `a + [c] + b`, where neither part holds `c`, leaves `a + b`. */
  lemma RemoveCharBetween(a: string, b: string, c: char)
    requires c !in a && c !in b
    ensures RemoveChar(a + [c] + b, c) == a + b
  {
    RemoveCharAppend(a + [c], b, c);
    RemoveCharAppend(a, [c], c);
    RemoveCharSingle(c, c);
    RemoveAbsentChar(a, c);
    RemoveAbsentChar(b, c);
    assert a + [] == a;
  }

  /** Deleting a character that does not occur changes nothing. */
  lemma {:induction false} RemoveAbsentChar(s: string, c: char)
    requires c !in s
    ensures RemoveChar(s, c) == s
  {
    if s != [] {
      RemoveAbsentChar(s[1..], c);
    }
  }

  /** `s.split(sep)` for a one-character separator: the maximal separator-free pieces, at least one. */
  function Split(s: string, sep: char): (parts: seq<string>)
    ensures |parts| >= 1
    ensures forall k :: 0 <= k < |parts| ==> sep !in parts[k]
  {
    if s == [] then [[]]
    else
      var rest := Split(s[1..], sep);
      if s[0] == sep then [[]] + rest else [[s[0]] + rest[0]] + rest[1..]
  }

  /** `parts.join(sep)`, the inverse of `Split`. */
  function Join(parts: seq<string>, sep: char): string
    requires |parts| >= 1
  {
    if |parts| == 1 then parts[0] else parts[0] + [sep] + Join(parts[1..], sep)
  }

  /** Gluing a string onto the first piece glues it onto the join. */
  lemma {:induction false} JoinGlueFirst(x: string, parts: seq<string>, sep: char)
    requires |parts| >= 1
    ensures Join([x + parts[0]] + parts[1..], sep) == x + Join(parts, sep)
  {
    var glued := [x + parts[0]] + parts[1..];
    if |parts| > 1 {
      assert glued[1..] == parts[1..];
    }
  }

  /** Joining the pieces of a split gives back the original string. */
  lemma {:induction false} JoinSplit(s: string, sep: char)
    ensures Join(Split(s, sep), sep) == s
  {
    if s != [] {
      var rest := Split(s[1..], sep);
      JoinSplit(s[1..], sep);
      if s[0] != sep {
        assert Split(s, sep) == [[s[0]] + rest[0]] + rest[1..];
        JoinGlueFirst([s[0]], rest, sep);
      } else {
        var parts := [[]] + rest;
        assert Split(s, sep) == parts;
        assert parts[1..] == rest;
        assert Join(parts, sep) == [] + [sep] + Join(rest, sep);
      }
      assert s == [s[0]] + s[1..];
    }
  }

  /** Splitting a string whose first piece is `p` yields `p` glued to the first piece of the rest. */
  lemma {:induction false} SplitPrefix(p: string, t: string, sep: char)
    requires sep !in p
    ensures Split(p + t, sep) == [p + Split(t, sep)[0]] + Split(t, sep)[1..]
  {
    if p != [] {
      var s := p + t;
      var T := Split(t, sep);
      SplitPrefix(p[1..], t, sep);
      assert s[1..] == p[1..] + t;
      var rest := Split(s[1..], sep);
      assert rest == [p[1..] + T[0]] + T[1..];
      assert rest[0] == p[1..] + T[0] && rest[1..] == T[1..];
      assert s[0] == p[0] && s[0] != sep;
      assert Split(s, sep) == [[s[0]] + rest[0]] + rest[1..];
      assert [p[0]] + (p[1..] + T[0]) == p + T[0];
    } else {
      var T := Split(t, sep);
      assert p + t == t && [] + T[0] == T[0];
      assert T == [T[0]] + T[1..];
    }
  }

  /** Splitting the join of separator-free pieces gives back the pieces. */
  lemma {:induction false} SplitJoin(parts: seq<string>, sep: char)
    requires |parts| >= 1
    requires forall k :: 0 <= k < |parts| ==> sep !in parts[k]
    ensures Split(Join(parts, sep), sep) == parts
  {
    if |parts| == 1 {
      SplitPrefix(parts[0], [], sep);
      assert parts[0] + [] == parts[0];
    } else {
      var tail := Join(parts[1..], sep);
      SplitJoin(parts[1..], sep);
      var u := [sep] + tail;
      SplitPrefix(parts[0], u, sep);
      assert Join(parts, sep) == parts[0] + [sep] + tail;
      assert parts[0] + [sep] + tail == parts[0] + u;
      assert u[1..] == tail && u[0] == sep;
      assert Split(u, sep) == [[]] + Split(tail, sep);
      assert parts[0] + [] == parts[0];
      assert parts == [parts[0]] + parts[1..];
    }
  }

  /** A character other than the separator occurs in a join only if it occurs in some piece. */
  lemma {:induction false} JoinAvoids(parts: seq<string>, sep: char, c: char)
    requires |parts| >= 1 && c != sep
    requires forall k :: 0 <= k < |parts| ==> c !in parts[k]
    ensures c !in Join(parts, sep)
  {
    if |parts| > 1 {
      JoinAvoids(parts[1..], sep, c);
    }
  }

  /** Every character of every piece occurs in the join. */
  lemma {:induction false} JoinContains(parts: seq<string>, sep: char, k: nat, x: char)
    requires |parts| >= 1 && k < |parts| && x in parts[k]
    ensures x in Join(parts, sep)
  {
    if |parts| > 1 && k > 0 {
      JoinContains(parts[1..], sep, k - 1, x);
    }
  }

  /** The last piece of `a + [sep] + b` is `b` when `b` has no separator. */
  lemma {:induction false} SplitLastPiece(a: string, b: string, sep: char)
    requires sep !in b
    ensures |Split(a + [sep] + b, sep)| >= 2
    ensures Split(a + [sep] + b, sep)[|Split(a + [sep] + b, sep)| - 1] == b
  {
    var s := a + [sep] + b;
    if a == [] {
      assert s == [sep] + b && s[1..] == b;
      SplitPrefix(b, [], sep);
      assert b + [] == b;
    } else {
      assert s[1..] == a[1..] + [sep] + b;
      SplitLastPiece(a[1..], b, sep);
    }
  }

  /** A string without the separator is one piece. */
  lemma SplitWithoutSep(s: string, sep: char)
    requires sep !in s
    ensures Split(s, sep) == [s]
  {
    SplitPrefix(s, [], sep);
    assert s + [] == s;
  }

  /** ASCII `toLowerCase` of one character. */
  function LowerChar(c: char): char {
    if 'A' <= c <= 'Z' then (c as int + 32) as char else c
  }

  /** `s.toLowerCase()` over ASCII letters; every other character is kept. */
  function ToLower(s: string): (r: string)
    ensures |r| == |s|
    ensures forall k :: 0 <= k < |s| ==> r[k] == LowerChar(s[k])
  {
    seq(|s|, k requires 0 <= k < |s| => LowerChar(s[k]))
  }

  /** `s` begins with `t`. */
  predicate StartsWith(s: string, t: string) {
    |t| <= |s| && s[..|t|] == t
  }

  /** `s.includes(t)`: `t` occurs in `s` at some position. */
  predicate Contains(s: string, t: string) {
    StartsWith(s, t) || (s != [] && Contains(s[1..], t))
  }

  /** Extending a string on the right keeps what it contains. */
  lemma {:induction false} ContainsExtend(s: string, r: string, t: string)
    requires Contains(s, t)
    ensures Contains(s + r, t)
  {
    if StartsWith(s, t) {
      assert (s + r)[..|t|] == s[..|t|];
    } else {
      ContainsExtend(s[1..], r, t);
      assert (s + r)[1..] == s[1..] + r;
    }
  }

  /** Containment is transitive: a string containing `t` contains everything `t` contains. */
  lemma {:induction false} ContainsTransitive(s: string, t: string, u: string)
    requires Contains(s, t) && Contains(t, u)
    ensures Contains(s, u)
  {
    if StartsWith(s, t) {
      ContainsExtend(t, s[|t|..], u);
      assert t + s[|t|..] == s;
    } else {
      ContainsTransitive(s[1..], t, u);
    }
  }

  /** The decimal digit of `d`. */
  function Digit(d: nat): char
    requires d < 10
  {
    ('0' as int + d) as char
  }

  /** The numeric value of a string of decimal digits. */
  function DecimalValue(s: string): nat
    requires forall k :: 0 <= k < |s| ==> '0' <= s[k] <= '9'
  {
    if s == [] then 0 else 10 * DecimalValue(s[..|s| - 1]) + (s[|s| - 1] as int - '0' as int)
  }

  /** `${n}` for a non-negative integer: its decimal digits, most significant first. */
  function NatToString(n: nat): string {
    if n < 10 then [Digit(n)] else NatToString(n / 10) + [Digit(n % 10)]
  }

  /** The rendering of n is a non-empty string of digits that reads back as n, with no leading
      zero unless n is 0 itself. */
  lemma {:induction false} NatToStringValue(n: nat)
    ensures |NatToString(n)| >= 1
    ensures forall k :: 0 <= k < |NatToString(n)| ==> '0' <= NatToString(n)[k] <= '9'
    ensures DecimalValue(NatToString(n)) == n
    ensures NatToString(n)[0] == '0' ==> n == 0
  {
    if n >= 10 {
      NatToStringValue(n / 10);
      var s := NatToString(n);
      assert s[..|s| - 1] == NatToString(n / 10);
      assert s[0] == NatToString(n / 10)[0];
    }
  }

  /** Distinct numbers render as distinct strings. */
  lemma NatToStringInjective(m: nat, n: nat)
    requires NatToString(m) == NatToString(n)
    ensures m == n
  {
    NatToStringValue(m);
    NatToStringValue(n);
  }
}
