/** String helpers with the semantics of JavaScript's `Array.prototype.join`
    and `String.prototype.split` for a one-character separator, together with
    the facts about them that the conversation formatter relies on. */
module Strings {

  /** True when `p` is a prefix of `s`. */
  predicate StartsWith(s: string, p: string) {
    |p| <= |s| && s[..|p|] == p
  }

  /** True when `p` is a suffix of `s`. */
  predicate EndsWith(s: string, p: string) {
    |p| <= |s| && s[|s| - |p|..] == p
  }

  /** `xs.join(sep)`: the elements in order with `sep` between neighbours;
      the empty list joins to the empty string. */
  function Join(xs: seq<string>, sep: string): string
    decreases |xs|
  {
    if |xs| == 0 then ""
    else if |xs| == 1 then xs[0]
    else xs[0] + sep + Join(xs[1..], sep)
  }

  /** `s.split(c)`: the maximal pieces of `s` between occurrences of `c`;
      like JavaScript, the empty string splits to one empty piece. */
  function Split(s: string, c: char): (r: seq<string>)
    ensures |r| == Occurrences(s, c) + 1
    ensures forall i :: 0 <= i < |r| ==> c !in r[i]
    decreases |s|
  {
    if |s| == 0 then [""]
    else if s[0] == c then [""] + Split(s[1..], c)
    else
      var rest := Split(s[1..], c);
      [[s[0]] + rest[0]] + rest[1..]
  }

  /** Number of occurrences of `c` in `s`. */
  function Occurrences(s: string, c: char): nat
    decreases |s|
  {
    if |s| == 0 then 0
    else (if s[0] == c then 1 else 0) + Occurrences(s[1..], c)
  }

  /** Total length of the strings of `xs`. */
  function SumLengths(xs: seq<string>): nat
    decreases |xs|
  {
    if |xs| == 0 then 0 else SumLengths(xs[..|xs| - 1]) + |xs[|xs| - 1]|
  }

  /** Total number of occurrences of `c` in the strings of `xs`. */
  function SumOccurrences(xs: seq<string>, c: char): nat
    decreases |xs|
  {
    if |xs| == 0 then 0 else SumOccurrences(xs[..|xs| - 1], c) + Occurrences(xs[|xs| - 1], c)
  }

  /** A string has no occurrence of `c` exactly when `c` is not in it. */
  lemma {:induction false} OccurrencesZero(s: string, c: char)
    ensures Occurrences(s, c) == 0 <==> c !in s
    decreases |s|
  {
    if |s| > 0 {
      OccurrencesZero(s[1..], c);
      assert s == [s[0]] + s[1..];
    }
  }

  /** Occurrences in a concatenation add up. */
  lemma {:induction false} OccurrencesConcat(a: string, b: string, c: char)
    ensures Occurrences(a + b, c) == Occurrences(a, c) + Occurrences(b, c)
    decreases |a|
  {
    if |a| > 0 {
      assert (a + b)[1..] == a[1..] + b;
      OccurrencesConcat(a[1..], b, c);
    } else {
      assert a + b == b;
    }
  }

  /** The total is zero exactly when no string of `xs` holds `c`. */
  lemma {:induction false} SumOccurrencesZero(xs: seq<string>, c: char)
    ensures SumOccurrences(xs, c) == 0 <==> forall i :: 0 <= i < |xs| ==> c !in xs[i]
    decreases |xs|
  {
    if |xs| > 0 {
      var init := xs[..|xs| - 1];
      SumOccurrencesZero(init, c);
      OccurrencesZero(xs[|xs| - 1], c);
      assert forall i :: 0 <= i < |init| ==> init[i] == xs[i];
    }
  }

  /** Joining one more element adds one separator and the element at the end. */
  lemma {:induction false} JoinAppend(xs: seq<string>, sep: string, y: string)
    requires |xs| >= 1
    ensures Join(xs + [y], sep) == Join(xs, sep) + sep + y
    decreases |xs|
  {
    if |xs| == 1 {
      assert xs + [y] == [xs[0], y];
      assert [xs[0], y][1..] == [y];
    } else {
      assert (xs + [y])[1..] == xs[1..] + [y];
      JoinAppend(xs[1..], sep, y);
    }
  }

  /** A non-empty join begins with its first element. */
  lemma JoinStart(xs: seq<string>, sep: string)
    requires |xs| >= 1
    ensures StartsWith(Join(xs, sep), xs[0])
  {
  }

  /** A non-empty join ends with its last element. */
  lemma {:induction false} JoinEnd(xs: seq<string>, sep: string)
    requires |xs| >= 1
    ensures EndsWith(Join(xs, sep), xs[|xs| - 1])
  {
    if |xs| > 1 {
      var init := xs[..|xs| - 1];
      var y := xs[|xs| - 1];
      assert init + [y] == xs;
      JoinAppend(init, sep, y);
      var h := Join(init, sep) + sep;
      assert Join(xs, sep) == h + y;
      assert (h + y)[|h + y| - |y|..] == y;
    }
  }

  /** A non-empty join on `[c]` holds one `c` per gap plus those of its elements. */
  lemma {:induction false} JoinOccurrences(xs: seq<string>, c: char)
    requires |xs| >= 1
    ensures Occurrences(Join(xs, [c]), c) == SumOccurrences(xs, c) + |xs| - 1
    decreases |xs|
  {
    if |xs| == 1 {
      assert xs[..0] == [];
    } else {
      var init := xs[..|xs| - 1];
      var y := xs[|xs| - 1];
      assert init + [y] == xs;
      JoinAppend(init, [c], y);
      JoinOccurrences(init, c);
      OccurrencesConcat(Join(init, [c]) + [c], y, c);
      OccurrencesConcat(Join(init, [c]), [c], c);
      assert Occurrences([c], c) == 1 by {
        assert [c][1..] == [];
      }
    }
  }

  /** A string without the separator splits into itself alone. */
  lemma {:induction false} SplitNoSeparator(s: string, c: char)
    requires c !in s
    ensures Split(s, c) == [s]
    decreases |s|
  {
    if |s| > 0 {
      SplitNoSeparator(s[1..], c);
      assert [s[0]] + s[1..] == s;
    }
  }

  /** Splitting stops at the first separator. */
  lemma {:induction false} SplitAtFirst(a: string, b: string, c: char)
    requires c !in a
    ensures Split(a + [c] + b, c) == [a] + Split(b, c)
    decreases |a|
  {
    var s := a + [c] + b;
    if |a| == 0 {
      assert s == [c] + b;
      assert s[1..] == b;
    } else {
      assert s[0] == a[0];
      assert s[1..] == a[1..] + [c] + b;
      SplitAtFirst(a[1..], b, c);
      assert [a[0]] + a[1..] == a;
    }
  }

  /** Splitting a join on a separator that no element contains gives back the elements. */
  lemma {:induction false} SplitJoin(xs: seq<string>, c: char)
    requires |xs| >= 1
    requires forall i :: 0 <= i < |xs| ==> c !in xs[i]
    ensures Split(Join(xs, [c]), c) == xs
    decreases |xs|
  {
    if |xs| == 1 {
      SplitNoSeparator(xs[0], c);
    } else {
      SplitJoin(xs[1..], c);
      SplitAtFirst(xs[0], Join(xs[1..], [c]), c);
      assert [xs[0]] + xs[1..] == xs;
    }
  }

  /** Prefixing the first element with `h` prefixes the whole join with `h`. */
  lemma JoinConsHead(h: string, r: seq<string>, sep: string)
    requires |r| >= 1
    ensures Join([h + r[0]] + r[1..], sep) == h + Join(r, sep)
  {
  }

  /** Joining the pieces of a split on the same separator rebuilds the string. */
  lemma {:induction false} JoinSplit(s: string, c: char)
    ensures Join(Split(s, c), [c]) == s
    decreases |s|
  {
    if |s| > 0 {
      var rest := Split(s[1..], c);
      JoinSplit(s[1..], c);
      if s[0] == c {
        var xs := [""] + rest;
        assert xs[1..] == rest;
        assert s == [c] + s[1..];
      } else {
        JoinConsHead([s[0]], rest, [c]);
        assert s == [s[0]] + s[1..];
      }
    }
  }
}
