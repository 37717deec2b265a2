/** Values shared by every part of the backend: optional values, the error
    outcomes the route handlers answer with, and the `usuarios` lookup that
    every handler starts with. */
module Common {

  datatype Option<+T> = None | Some(value: T)

  /** The error answers of the handlers, one per distinct HTTP reply. */
  datatype Error =
    | BadRequest      // 400: a required field is missing
    | UserNotFound    // 404: the caller's email has no row in `usuarios`
    | RecordNotFound  // 404: the addressed car or receipt does not exist
    | Forbidden       // 403: the addressed row belongs to another user
    | Conflict        // 409: the car is already registered for this user

  datatype Result<+T> = Ok(value: T) | Err(error: Error)

  /** The `usuarios` table as seen by the handlers: email to `id_usuario`. */
  type Users = map<string, nat>

  /** JavaScript truthiness of an optional string: `undefined`, `null` and
      the empty string are falsy. */
  predicate Truthy(s: Option<string>)
  {
    s.Some? && s.value != ""
  }

  /** 10 to the power n, for decimal digit strings. */
  function Pow10(n: nat): (p: nat)
    ensures p >= 1
  {
    if n == 0 then 1 else 10 * Pow10(n - 1)
  }
}

/** The string operations of JavaScript's `String.prototype` that the core
    relies on, over `seq<char>`. */
module Text {

  /** The characters `String.prototype.trim` and `parseFloat` skip: the
      ECMAScript WhiteSpace and LineTerminator code points. */
  predicate IsWhitespace(c: char)
  {
    || c == '\t' || c == '\n' || c == '\U{000B}' || c == '\U{000C}' || c == '\r'
    || c == ' ' || c == '\U{00A0}' || c == '\U{1680}'
    || ('\U{2000}' <= c <= '\U{200A}')
    || c == '\U{2028}' || c == '\U{2029}' || c == '\U{202F}' || c == '\U{205F}'
    || c == '\U{3000}' || c == '\U{FEFF}'
  }

  predicate IsDigit(c: char)
  {
    '0' <= c <= '9'
  }

  predicate AllDigits(s: string)
  {
    forall k :: 0 <= k < |s| ==> IsDigit(s[k])
  }

  /** The value of a string of decimal digits. */
  function DigitsValue(d: string): nat
    requires AllDigits(d)
  {
    if d == [] then 0 else DigitsValue(d[..|d| - 1]) * 10 + (d[|d| - 1] as int - '0' as int)
  }

  /** Drops leading whitespace. */
  function TrimStart(s: string): (r: string)
    ensures |r| <= |s| && r == s[|s| - |r|..]
    ensures forall k :: 0 <= k < |s| - |r| ==> IsWhitespace(s[k])
    ensures r == [] || !IsWhitespace(r[0])
  {
    if s != [] && IsWhitespace(s[0]) then TrimStart(s[1..]) else s
  }

  /** Drops trailing whitespace. */
  function TrimEnd(s: string): (r: string)
    ensures |r| <= |s| && r == s[..|r|]
    ensures forall k :: |r| <= k < |s| ==> IsWhitespace(s[k])
    ensures r == [] || !IsWhitespace(r[|r| - 1])
  {
    if s != [] && IsWhitespace(s[|s| - 1]) then TrimEnd(s[..|s| - 1]) else s
  }

  /** `String.prototype.trim`: the slice of `s` left once whitespace is
      removed at both ends. */
  function Trim(s: string): (r: string)
    ensures exists i, j :: 0 <= i <= j <= |s| && r == s[i..j]
    ensures r == [] || (!IsWhitespace(r[0]) && !IsWhitespace(r[|r| - 1]))
  {
    var t := TrimStart(s);
    var u := TrimEnd(t);
    assert u == s[|s| - |t|..|s| - |t| + |u|];
    u
  }

  lemma TrimStartFixed(s: string)
    requires s == [] || !IsWhitespace(s[0])
    ensures TrimStart(s) == s
  {
  }

  lemma {:induction false} TrimEndKeepsStart(s: string)
    requires s == [] || !IsWhitespace(s[0])
    ensures TrimEnd(s) == [] || !IsWhitespace(TrimEnd(s)[0])
  {
    var r := TrimEnd(s);
    if r != [] {
      assert r[0] == s[0];
    }
  }

  /** Text with no whitespace at either end is its own trim. */
  lemma TrimFixed(s: string)
    requires s == [] || (!IsWhitespace(s[0]) && !IsWhitespace(s[|s| - 1]))
    ensures Trim(s) == s
  {
    TrimStartFixed(s);
    assert TrimEnd(s) == s;
  }

  /** Trimming twice is trimming once. */
  lemma {:induction false} TrimIdempotent(s: string)
    ensures Trim(Trim(s)) == Trim(s)
  {
    TrimFixed(Trim(s));
  }

  /** Leading whitespace does not change what `TrimStart` leaves. */
  lemma {:induction false} TrimStartAfterBlanks(ws: string, u: string)
    requires forall k :: 0 <= k < |ws| ==> IsWhitespace(ws[k])
    ensures TrimStart(ws + u) == TrimStart(u)
  {
    if ws == [] {
      assert ws + u == u;
    } else {
      assert (ws + u)[0] == ws[0];
      assert (ws + u)[1..] == ws[1..] + u;
      TrimStartAfterBlanks(ws[1..], u);
    }
  }

  /** Text holding a character that is not whitespace does not trim to ''. */
  lemma TrimNonBlank(s: string, j: nat)
    requires j < |s| && !IsWhitespace(s[j])
    ensures Trim(s) != []
  {
    var t := TrimStart(s);
    assert t != [] by {
      assert j >= |s| - |t| && s[j] == t[j - (|s| - |t|)];
    }
    assert TrimEnd(t) == [] || TrimEnd(t)[0] == t[0];
  }

  /** ASCII case folding of one character, as `toUpperCase` does it on the
      ASCII range. */
  function UpperChar(c: char): char
  {
    if 'a' <= c <= 'z' then (c as int - 32) as char else c
  }

  /** `String.prototype.toUpperCase`, restricted to ASCII letters. */
  function ToUpper(s: string): (r: string)
    ensures |r| == |s|
  {
    if s == [] then [] else [UpperChar(s[0])] + ToUpper(s[1..])
  }

  /** Upper-casing works character by character. */
  lemma {:induction false} ToUpperAt(s: string, k: nat)
    requires k < |s|
    ensures ToUpper(s)[k] == UpperChar(s[k])
  {
    if k > 0 {
      ToUpperAt(s[1..], k - 1);
    }
  }

  /** `t` occurs in `s` starting at position `i`. */
  predicate OccursAt(s: string, t: string, i: nat)
  {
    i + |t| <= |s| && s[i..i + |t|] == t
  }

  /** `s.includes(t)`: `t` occurs in `s` at some position. */
  predicate Includes(s: string, t: string)
  {
    exists i: nat :: i <= |s| && OccursAt(s, t, i)
  }

  /** Index of the first occurrence of `c` in `s`, or `|s|` when absent. */
  function IndexOf(s: string, c: char): (i: nat)
    ensures i <= |s|
    ensures c !in s[..i]
    ensures i < |s| ==> s[i] == c
  {
    if s == [] then 0 else if s[0] == c then 0 else 1 + IndexOf(s[1..], c)
  }

  /** `s.replace(from, to)` with a one-character string pattern: only the
      first occurrence is replaced. */
  function ReplaceFirst(s: string, from: char, to: char): (r: string)
    ensures |r| == |s|
    ensures var i := IndexOf(s, from);
      forall k :: 0 <= k < |s| ==> r[k] == (if k == i then to else s[k])
  {
    var i := IndexOf(s, from);
    if i == |s| then s else s[..i] + [to] + s[i + 1..]
  }

  /** `s.split(sep)` with a one-character separator: the pieces between
      separators, always at least one, none containing `sep`. */
  function Split(s: string, sep: char): (r: seq<string>)
    ensures |r| >= 1
    ensures forall k :: 0 <= k < |r| ==> sep !in r[k]
  {
    if s == [] then [[]]
    else if s[0] == sep then [[]] + Split(s[1..], sep)
    else
      var t := Split(s[1..], sep);
      [[s[0]] + t[0]] + t[1..]
  }

  /** `parts.join(sep)`, the inverse of `Split`. */
  function Join(parts: seq<string>, sep: char): string
    requires |parts| >= 1
  {
    if |parts| == 1 then parts[0] else parts[0] + [sep] + Join(parts[1..], sep)
  }

  /** Splitting and joining again gives back the original string. */
  lemma {:induction false} SplitJoin(s: string, sep: char)
    ensures Join(Split(s, sep), sep) == s
  {
    if s == [] {
    } else if s[0] == sep {
      SplitJoin(s[1..], sep);
      var t := Split(s[1..], sep);
      assert Split(s, sep) == [[]] + t;
      assert ([[]] + t)[1..] == t;
    } else {
      SplitJoin(s[1..], sep);
      var t := Split(s[1..], sep);
      var r := [[s[0]] + t[0]] + t[1..];
      assert Split(s, sep) == r;
      if |t| == 1 {
        assert Join(r, sep) == [s[0]] + t[0];
      } else {
        assert r[1..] == t[1..];
        assert Join(t, sep) == t[0] + [sep] + Join(t[1..], sep);
      }
      assert Join(r, sep) == [s[0]] + Join(t, sep);
    }
  }

  /** A text without the separator splits into itself alone. */
  lemma {:induction false} SplitNoSep(s: string, sep: char)
    requires sep !in s
    ensures Split(s, sep) == [s]
  {
    if s != [] {
      assert s[0] != sep && sep !in s[1..];
      SplitNoSep(s[1..], sep);
      assert [s[0]] + s[1..] == s;
    }
  }

  /** Splitting at a separator after a piece without one. */
  lemma {:induction false} SplitAfter(a: string, sep: char, b: string)
    requires sep !in a
    ensures Split(a + [sep] + b, sep) == [a] + Split(b, sep)
  {
    if a == [] {
      assert a + [sep] + b == [sep] + b;
      assert ([sep] + b)[1..] == b;
    } else {
      SplitAfter(a[1..], sep, b);
      assert (a + [sep] + b)[1..] == a[1..] + [sep] + b;
      assert [a[0]] + a[1..] == a;
    }
  }

  /** The first piece of a split is the text before the first separator. */
  lemma {:induction false} SplitFirst(s: string, sep: char)
    ensures Split(s, sep)[0] == s[..IndexOf(s, sep)]
  {
    if s != [] && s[0] != sep {
      SplitFirst(s[1..], sep);
    }
  }
}

/** Sequence combinators shaped like JavaScript's `Array.prototype.filter`
    and `map(...).filter(...)`. */
module Seqs {
  import opened Common

  /** `xs.filter(keep)`: the elements satisfying `keep`, in their order. */
  function Filter<T>(keep: T -> bool, xs: seq<T>): (r: seq<T>)
    ensures |r| <= |xs|
    ensures forall y :: y in r ==> y in xs && keep(y)
  {
    if xs == [] then []
    else
      var rest := Filter(keep, xs[1..]);
      if keep(xs[0]) then [xs[0]] + rest else rest
  }

  /** Everything of `xs` that satisfies `keep` is kept. */
  lemma {:induction false} FilterKeeps<T>(keep: T -> bool, xs: seq<T>, y: T)
    requires y in xs && keep(y)
    ensures y in Filter(keep, xs)
  {
    if xs[0] != y {
      FilterKeeps(keep, xs[1..], y);
    }
  }

  /** Filtering distributes over concatenation (so order is preserved). */
  lemma {:induction false} FilterAppend<T>(keep: T -> bool, a: seq<T>, b: seq<T>)
    ensures Filter(keep, a + b) == Filter(keep, a) + Filter(keep, b)
  {
    if a == [] {
      assert a + b == b;
    } else {
      assert (a + b)[0] == a[0];
      assert (a + b)[1..] == a[1..] + b;
      FilterAppend(keep, a[1..], b);
      if keep(a[0]) {
        assert [a[0]] + (Filter(keep, a[1..]) + Filter(keep, b))
            == ([a[0]] + Filter(keep, a[1..])) + Filter(keep, b);
      }
    }
  }

  /** `xs.map(f).filter(keep)`. */
  function MapFilter<A, B>(f: A -> B, keep: B -> bool, xs: seq<A>): (r: seq<B>)
    ensures |r| <= |xs|
    ensures forall y :: y in r ==> keep(y)
  {
    if xs == [] then []
    else
      var y := f(xs[0]);
      var rest := MapFilter(f, keep, xs[1..]);
      if keep(y) then [y] + rest else rest
  }

  /** Mapping-then-filtering distributes over concatenation. */
  lemma {:induction false} MapFilterAppend<A, B>(f: A -> B, keep: B -> bool, a: seq<A>, b: seq<A>)
    ensures MapFilter(f, keep, a + b) == MapFilter(f, keep, a) + MapFilter(f, keep, b)
  {
    if a == [] {
      assert a + b == b;
    } else {
      assert (a + b)[0] == a[0];
      assert (a + b)[1..] == a[1..] + b;
      MapFilterAppend(f, keep, a[1..], b);
      var y := f(a[0]);
      if keep(y) {
        assert [y] + (MapFilter(f, keep, a[1..]) + MapFilter(f, keep, b))
            == ([y] + MapFilter(f, keep, a[1..])) + MapFilter(f, keep, b);
      }
    }
  }

  /** The output holds exactly the images that pass the filter. */
  lemma {:induction false} MapFilterMembers<A, B>(f: A -> B, keep: B -> bool, xs: seq<A>, y: B)
    ensures y in MapFilter(f, keep, xs) <==>
      keep(y) && exists k :: 0 <= k < |xs| && f(xs[k]) == y
  {
    if xs != [] {
      MapFilterMembers(f, keep, xs[1..], y);
      if exists k :: 0 <= k < |xs| && f(xs[k]) == y {
        var k :| 0 <= k < |xs| && f(xs[k]) == y;
        if k > 0 {
          assert f(xs[1..][k - 1]) == y;
        }
      }
      if exists k :: 0 <= k < |xs[1..]| && f(xs[1..][k]) == y {
        var k :| 0 <= k < |xs[1..]| && f(xs[1..][k]) == y;
        assert f(xs[k + 1]) == y;
      }
    }
  }

  /** The first element satisfying `p`, as a `SELECT ... WHERE` that expects
      at most one row reads it. */
  function FindFirst<T>(p: T -> bool, xs: seq<T>): (r: Option<T>)
    ensures r.None? <==> forall k :: 0 <= k < |xs| ==> !p(xs[k])
    ensures r.Some? ==> r.value in xs && p(r.value)
  {
    if xs == [] then None
    else if p(xs[0]) then Some(xs[0])
    else FindFirst(p, xs[1..])
  }

  /** Filtering out the single element that fails `keep` removes exactly
      that element and keeps the others in order. */
  lemma {:induction false} FilterDropsOne<T>(keep: T -> bool, xs: seq<T>, k: nat)
    requires k < |xs| && !keep(xs[k])
    requires forall i :: 0 <= i < |xs| && i != k ==> keep(xs[i])
    ensures Filter(keep, xs) == xs[..k] + xs[k + 1..]
  {
    if k == 0 {
      FilterAll(keep, xs[1..]);
    } else {
      assert keep(xs[0]);
      forall i | 0 <= i < |xs[1..]| && i != k - 1
        ensures keep(xs[1..][i])
      {
        assert xs[1..][i] == xs[i + 1];
      }
      FilterDropsOne(keep, xs[1..], k - 1);
      assert xs[..k] == [xs[0]] + xs[1..][..k - 1];
      assert xs[k + 1..] == xs[1..][k..];
    }
  }

  /** Filtering keeps a sequence whose every element passes. */
  lemma {:induction false} FilterAll<T>(keep: T -> bool, xs: seq<T>)
    requires forall i :: 0 <= i < |xs| ==> keep(xs[i])
    ensures Filter(keep, xs) == xs
  {
    if xs != [] {
      assert keep(xs[0]);
      FilterAll(keep, xs[1..]);
    }
  }

  /** Filters by predicates that agree on every element are equal. */
  lemma {:induction false} FilterCongruent<T>(p: T -> bool, q: T -> bool, xs: seq<T>)
    requires forall k :: 0 <= k < |xs| ==> p(xs[k]) == q(xs[k])
    ensures Filter(p, xs) == Filter(q, xs)
  {
    if xs != [] {
      assert p(xs[0]) == q(xs[0]);
      FilterCongruent(p, q, xs[1..]);
    }
  }
}
