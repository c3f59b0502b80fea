/**
 * The string operations the inventory script relies on: Python's `str.split`
 * with a one-character separator, `str.join`, and `int()` restricted to plain
 * decimal digit strings, together with the decimal rendering `str()` gives a
 * non-negative integer.
 */
module Text {
  import opened Wrappers

  /** `s.split(sep)`: the pieces between separators, in order; never empty. */
  function Split(s: string, sep: char): (parts: seq<string>)
    ensures |parts| >= 1
    decreases |s|
  {
    if s == [] then [""]
    else
      var rest := Split(s[1..], sep);
      if s[0] == sep then [""] + rest
      else [[s[0]] + rest[0]] + rest[1..]
  }

  /** `sep.join(parts)`. */
  function Join(sep: char, parts: seq<string>): string
  {
    if parts == [] then ""
    else if |parts| == 1 then parts[0]
    else parts[0] + [sep] + Join(sep, parts[1..])
  }

  /** Number of occurrences of `c` in `s`. */
  function Count(s: string, c: char): nat
  {
    if s == [] then 0 else (if s[0] == c then 1 else 0) + Count(s[1..], c)
  }

  /** Joining the pieces of a split gives back the original string. */
  lemma {:induction false} JoinSplit(s: string, sep: char)
    ensures Join(sep, Split(s, sep)) == s
  {
    if s != [] {
      JoinSplit(s[1..], sep);
      if s[0] == sep {
        JoinSplitAtSeparator(s, sep);
      } else {
        JoinSplitAtChar(s, sep);
      }
    }
  }

  /** The step of `JoinSplit` for a string that starts with the separator. */
  lemma JoinSplitAtSeparator(s: string, sep: char)
    requires s != [] && s[0] == sep
    requires Join(sep, Split(s[1..], sep)) == s[1..]
    ensures Join(sep, Split(s, sep)) == s
  {
    var rest := Split(s[1..], sep);
    assert Split(s, sep) == [""] + rest;
    JoinCons("", rest, sep);
    assert s == [sep] + s[1..];
  }

  /** The step of `JoinSplit` for a string that starts with another character. */
  lemma JoinSplitAtChar(s: string, sep: char)
    requires s != [] && s[0] != sep
    requires Join(sep, Split(s[1..], sep)) == s[1..]
    ensures Join(sep, Split(s, sep)) == s
  {
    var rest := Split(s[1..], sep);
    var first := [s[0]] + rest[0];
    assert s == [s[0]] + s[1..];
    if |rest| == 1 {
      assert Split(s, sep) == [first];
    } else {
      var tail := rest[1..];
      assert Split(s, sep) == [first] + tail;
      assert [rest[0]] + tail == rest;
      JoinCons(rest[0], tail, sep);
      JoinCons(first, tail, sep);
      assert first + [sep] + Join(sep, tail) == [s[0]] + (rest[0] + [sep] + Join(sep, tail));
    }
  }

  /** Joining a piece in front of a non-empty list puts one separator between them. */
  lemma JoinCons(p: string, ps: seq<string>, sep: char)
    requires ps != []
    ensures Join(sep, [p] + ps) == p + [sep] + Join(sep, ps)
  {
    assert ([p] + ps)[1..] == ps;
  }

  /** A string without the separator splits into itself alone. */
  lemma {:induction false} SplitWithoutSeparator(w: string, sep: char)
    requires sep !in w
    ensures Split(w, sep) == [w]
  {
    if w != [] {
      assert sep !in w[1..] by { assert forall k :: 0 <= k < |w[1..]| ==> w[1..][k] == w[k + 1]; }
      SplitWithoutSeparator(w[1..], sep);
      assert [w[0]] + w[1..] == w;
    }
  }

  /** A separator-free first piece is cut off at the first separator. */
  lemma {:induction false} SplitAfterPiece(w: string, sep: char, t: string)
    requires sep !in w
    ensures Split(w + [sep] + t, sep) == [w] + Split(t, sep)
  {
    var s := w + [sep] + t;
    if w == [] {
      assert s[0] == sep && s[1..] == t;
    } else {
      assert sep !in w[1..] by { assert forall k :: 0 <= k < |w[1..]| ==> w[1..][k] == w[k + 1]; }
      SplitAfterPiece(w[1..], sep, t);
      assert s[0] == w[0] && s[1..] == w[1..] + [sep] + t;
      assert [w[0]] + w[1..] == w;
    }
  }

  /** Splitting a join of separator-free pieces gives back the pieces. */
  lemma {:induction false} SplitJoin(parts: seq<string>, sep: char)
    requires |parts| >= 1
    requires forall k :: 0 <= k < |parts| ==> sep !in parts[k]
    ensures Split(Join(sep, parts), sep) == parts
  {
    if |parts| == 1 {
      SplitWithoutSeparator(parts[0], sep);
    } else {
      SplitJoin(parts[1..], sep);
      SplitAfterPiece(parts[0], sep, Join(sep, parts[1..]));
      assert [parts[0]] + parts[1..] == parts;
    }
  }

  /** A join contains no character that is neither the separator nor in some piece. */
  lemma {:induction false} JoinAvoids(parts: seq<string>, sep: char, c: char)
    requires c != sep
    requires forall k :: 0 <= k < |parts| ==> c !in parts[k]
    ensures c !in Join(sep, parts)
  {
    if |parts| > 1 {
      JoinAvoids(parts[1..], sep, c);
    }
  }

  /** The number of pieces is one more than the number of separators. */
  lemma {:induction false} SplitCount(s: string, sep: char)
    ensures |Split(s, sep)| == Count(s, sep) + 1
  {
    if s != [] {
      SplitCount(s[1..], sep);
    }
  }

  /** The first piece of a split is a prefix of the string. */
  lemma {:induction false} SplitFirstIsPrefix(s: string, sep: char)
    ensures Split(s, sep)[0] <= s
  {
    if s != [] && s[0] != sep {
      SplitFirstIsPrefix(s[1..], sep);
      assert s == [s[0]] + s[1..];
    }
  }

  /** A string without the character counts none of it. */
  lemma {:induction false} CountAbsent(s: string, c: char)
    requires c !in s
    ensures Count(s, c) == 0
  {
    if s != [] {
      assert c !in s[1..] by { assert forall k :: 0 <= k < |s[1..]| ==> s[1..][k] == s[k + 1]; }
      CountAbsent(s[1..], c);
    }
  }

  /** A prefix holds no more occurrences of a character than the whole. */
  lemma {:induction false} CountPrefix(p: string, s: string, c: char)
    requires p <= s
    ensures Count(p, c) <= Count(s, c)
  {
    if p != [] {
      CountPrefix(p[1..], s[1..], c);
    } else if s != [] {
      CountPrefix(p, s[1..], c);
    }
  }

  // ---------------------------------------------------------------- decimal numbers

  predicate IsDigit(c: char) { '0' <= c <= '9' }

  /** A non-empty string of ASCII decimal digits. */
  predicate IsDigits(s: string)
  {
    |s| > 0 && forall k :: 0 <= k < |s| ==> IsDigit(s[k])
  }

  /** The value of a string of decimal digits, most significant first. */
  function Value(s: string): nat
    requires forall k :: 0 <= k < |s| ==> IsDigit(s[k])
  {
    if s == [] then 0
    else Value(s[..|s| - 1]) * 10 + DigitValue(s[|s| - 1])
  }

  function DigitValue(c: char): nat
    requires IsDigit(c)
  {
    (c as int) - ('0' as int)
  }

  /** A digit string contains no character other than digits. */
  lemma DigitsAvoid(s: string, c: char)
    requires IsDigits(s) && !IsDigit(c)
    ensures c !in s
  {
  }

  /** `int(s)` for a string of decimal digits; anything else is rejected. */
  function ParseNat(s: string): (r: Option<nat>)
    ensures r.Some? <==> IsDigits(s)
  {
    if IsDigits(s) then Some(Value(s)) else None
  }

  /** `str(n)` for a non-negative integer: decimal, without leading zeros. */
  function Show(n: nat): (s: string)
    ensures IsDigits(s)
  {
    if n < 10 then [(('0' as int) + n) as char]
    else Show(n / 10) + [(('0' as int) + n % 10) as char]
  }

  /** Reading back what `str` wrote gives the same number. */
  lemma {:induction false} ParseShow(n: nat)
    ensures ParseNat(Show(n)) == Some(n)
    ensures Show(n)[0] != '0' || n == 0
    ensures n < 10 ==> |Show(n)| == 1
    ensures n < 100 ==> |Show(n)| <= 2
    ensures n < 1000 ==> |Show(n)| <= 3
  {
    if n < 10 {
      assert Value(Show(n)) == Value([]) * 10 + n;
    } else {
      ParseShow(n / 10);
      var s := Show(n);
      var d := (('0' as int) + n % 10) as char;
      assert s == Show(n / 10) + [d];
      assert s[..|s| - 1] == Show(n / 10);
      assert DigitValue(d) == n % 10;
      assert Value(Show(n / 10)) == n / 10;
      assert Value(s) == (n / 10) * 10 + n % 10;
    }
  }

  /** Parses each piece with `int()`; fails if any piece fails. */
  function ParseAll(pieces: seq<string>): (r: Option<seq<nat>>)
    ensures r.Some? ==> |r.value| == |pieces|
    ensures r.Some? <==> forall k :: 0 <= k < |pieces| ==> IsDigits(pieces[k])
    ensures r.Some? ==> forall k :: 0 <= k < |pieces| ==> ParseNat(pieces[k]) == Some(r.value[k])
  {
    if pieces == [] then Some([])
    else
      match (ParseNat(pieces[0]), ParseAll(pieces[1..]))
      case (Some(v), Some(vs)) => Some([v] + vs)
      case _ => None
  }

  /** `str` of each number. */
  function ShowAll(ns: seq<nat>): (pieces: seq<string>)
    ensures |pieces| == |ns| && forall k :: 0 <= k < |ns| ==> pieces[k] == Show(ns[k])
  {
    seq(|ns|, k requires 0 <= k < |ns| => Show(ns[k]))
  }

  /** Reading back the decimal renderings of numbers gives the numbers. */
  lemma {:induction false} ParseAllShows(ns: seq<nat>)
    ensures ParseAll(ShowAll(ns)) == Some(ns)
  {
    if ns != [] {
      var pieces := ShowAll(ns);
      ParseShow(ns[0]);
      assert ParseNat(pieces[0]) == Some(ns[0]);
      assert pieces[1..] == ShowAll(ns[1..]);
      ParseAllShows(ns[1..]);
      assert ParseAll(pieces[1..]) == Some(ns[1..]);
      assert [ns[0]] + ns[1..] == ns;
    }
  }
}
