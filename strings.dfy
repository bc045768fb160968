/**
 * String primitives the TypeScript code takes from the JavaScript runtime:
 * `split` and `join` with a one-character separator, `String(n)` on integers,
 * ASCII case conversion, and the slash-separated words of a path.
 */
module Strings {

  predicate StartsWith(s: string, p: string)
  {
    |p| <= |s| && s[..|p|] == p
  }

  predicate EndsWith(s: string, p: string)
  {
    |p| <= |s| && s[|s| - |p|..] == p
  }

  /** `s.split(c)`: the pieces of `s` between occurrences of `c`, always at least one. */
  function Split(s: string, c: char): (r: seq<string>)
    ensures |r| >= 1
  {
    if s == [] then [""]
    else
      var rest := Split(s[1..], c);
      if s[0] == c then [""] + rest
      else [[s[0]] + rest[0]] + rest[1..]
  }

  /** `xs.join(sep)`. */
  function Join(xs: seq<string>, sep: string): string
  {
    if |xs| == 0 then ""
    else if |xs| == 1 then xs[0]
    else xs[0] + sep + Join(xs[1..], sep)
  }

  /** Joining the pieces of a split with the separator gives back the original string. */
  lemma {:induction false} JoinSplit(s: string, c: char)
    ensures Join(Split(s, c), [c]) == s
  {
    if s != [] {
      var rest := Split(s[1..], c);
      JoinSplit(s[1..], c);
      if s[0] == c {
        assert Split(s, c) == [""] + rest;
        assert ([""] + rest)[1..] == rest;
      } else if |rest| == 1 {
        assert Split(s, c) == [[s[0]] + rest[0]];
      } else {
        var r := Split(s, c);
        assert r == [[s[0]] + rest[0]] + rest[1..];
        assert r[1..] == rest[1..];
        assert Join(rest, [c]) == rest[0] + [c] + Join(rest[1..], [c]);
      }
    }
  }

  /** Splitting distributes over a separator: the split of `a c b` is the split of `a` followed by that of `b`. */
  lemma {:induction false} SplitAround(a: string, b: string, c: char)
    ensures Split(a + [c] + b, c) == Split(a, c) + Split(b, c)
  {
    if a == [] {
      assert a + [c] + b == [c] + b;
      assert ([c] + b)[1..] == b;
    } else {
      var s := a + [c] + b;
      assert s[0] == a[0] && s[1..] == a[1..] + [c] + b;
      SplitAround(a[1..], b, c);
      var ra := Split(a[1..], c);
      var rs := Split(s[1..], c);
      assert rs == ra + Split(b, c);
      if a[0] != c {
        assert rs[0] == ra[0];
        assert rs[1..] == ra[1..] + Split(b, c);
      }
    }
  }

  /** No piece of a split holds the separator. */
  lemma {:induction false} SplitPiecesLackSeparator(s: string, c: char)
    ensures forall i :: 0 <= i < |Split(s, c)| ==> c !in Split(s, c)[i]
  {
    if s != [] {
      SplitPiecesLackSeparator(s[1..], c);
      var rest := Split(s[1..], c);
      if s[0] != c {
        assert Split(s, c)[0] == [s[0]] + rest[0];
        assert forall i :: 1 <= i < |rest| ==> Split(s, c)[i] == rest[i];
      } else {
        assert forall i :: 1 <= i <= |rest| ==> Split(s, c)[i] == rest[i - 1];
      }
    }
  }

  lemma {:induction false} SplitNoSeparator(w: string, c: char)
    requires c !in w
    ensures Split(w, c) == [w]
  {
    if w != [] {
      SplitNoSeparator(w[1..], c);
      assert [w[0]] + w[1..] == w;
    }
  }

  /** The non-empty strings of `xs`, in order (`xs.filter(Boolean)`). */
  function NonEmpty(xs: seq<string>): (r: seq<string>)
    ensures forall i :: 0 <= i < |r| ==> r[i] != "" && r[i] in xs
  {
    if xs == [] then []
    else if xs[0] == "" then NonEmpty(xs[1..])
    else [xs[0]] + NonEmpty(xs[1..])
  }

  lemma {:induction false} NonEmptyAppend(xs: seq<string>, ys: seq<string>)
    ensures NonEmpty(xs + ys) == NonEmpty(xs) + NonEmpty(ys)
  {
    if xs == [] {
      assert xs + ys == ys;
    } else {
      assert (xs + ys)[0] == xs[0];
      assert (xs + ys)[1..] == xs[1..] + ys;
      NonEmptyAppend(xs[1..], ys);
    }
  }

  lemma NonEmptyPair(a: string, b: string)
    ensures NonEmpty([a, b]) == (if a == "" then [] else [a]) + (if b == "" then [] else [b])
  {
    assert [a, b][1..] == [b];
    assert [b][1..] == [];
    assert NonEmpty([b]) == (if b == "" then [] else [b]) by {
      assert NonEmpty([b]) == (if b == "" then NonEmpty([]) else [b] + NonEmpty([]));
    }
    assert NonEmpty([a, b]) == (if a == "" then NonEmpty([b]) else [a] + NonEmpty([b]));
  }

  /** The words of a path: the non-empty pieces between slashes. */
  function Parts(s: string): seq<string>
  {
    NonEmpty(Split(s, '/'))
  }

  /** The words of a path are non-empty and hold no slash. */
  lemma PartsAreWords(s: string)
    ensures forall i :: 0 <= i < |Parts(s)| ==> Parts(s)[i] != "" && '/' !in Parts(s)[i]
  {
    SplitPiecesLackSeparator(s, '/');
  }

  /** A slash between two strings separates their words and adds none. */
  lemma PartsAround(a: string, b: string)
    ensures Parts(a + "/" + b) == Parts(a) + Parts(b)
  {
    SplitAround(a, b, '/');
    NonEmptyAppend(Split(a, '/'), Split(b, '/'));
  }

  /** A non-empty string without slashes is a single word. */
  lemma PartsOfWord(w: string)
    requires w != "" && '/' !in w
    ensures Parts(w) == [w]
  {
    SplitNoSeparator(w, '/');
    assert [w][1..] == [];
    assert NonEmpty([w]) == [w] + NonEmpty([]);
  }

  /** Leading slashes do not change the words of a path. */
  lemma PartsLeadingSlash(u: string)
    ensures Parts("/" + u) == Parts(u)
  {
    PartsAround("", u);
    assert "" + "/" + u == "/" + u;
  }

  function DigitChar(d: nat): char
    requires d < 10
  {
    "0123456789"[d]
  }

  /** Decimal digits of `n`, most significant first, without leading zeros. */
  function NatToString(n: nat): (r: string)
    ensures r != []
    ensures forall i :: 0 <= i < |r| ==> '0' <= r[i] <= '9'
  {
    if n < 10 then [DigitChar(n)] else NatToString(n / 10) + [DigitChar(n % 10)]
  }

  /** `String(n)` for an integer `n`: a minus sign for negatives, then the decimal digits. */
  function IntToString(n: int): (r: string)
    ensures r != [] && '/' !in r
  {
    if n < 0 then "-" + NatToString(-n) else NatToString(n)
  }

  predicate IsLowerAscii(c: char)
  {
    'a' <= c <= 'z'
  }

  predicate IsUpperAscii(c: char)
  {
    'A' <= c <= 'Z'
  }

  function ToUpper(c: char): (r: char)
    ensures IsLowerAscii(c) ==> IsUpperAscii(r)
    ensures !IsLowerAscii(c) ==> r == c
  {
    if IsLowerAscii(c) then (c as int - 32) as char else c
  }

  function ToLower(c: char): (r: char)
    ensures IsUpperAscii(c) ==> IsLowerAscii(r)
    ensures !IsUpperAscii(c) ==> r == c
  {
    if IsUpperAscii(c) then (c as int + 32) as char else c
  }

  /** Every character lowered (TypeScript's `Lowercase<S>` on ASCII text). */
  function LowerString(s: string): (r: string)
    ensures |r| == |s|
  {
    if s == [] then [] else [ToLower(s[0])] + LowerString(s[1..])
  }

  /** Lowering letters keeps every other character out. */
  lemma {:induction false} LowerKeepsAbsent(s: string, c: char)
    requires c !in s && !IsLowerAscii(c)
    ensures c !in LowerString(s)
  {
    if s != [] {
      LowerKeepsAbsent(s[1..], c);
    }
  }

  /** The first character raised (TypeScript's `Capitalize<S>` on ASCII text). */
  function Capitalize(s: string): (r: string)
    ensures |r| == |s|
  {
    if s == [] then [] else [ToUpper(s[0])] + s[1..]
  }

  /** Both cases identified: the key under which two strings differ only in letter case. */
  function CaseFold(s: string): (r: string)
    ensures |r| == |s|
  {
    if s == [] then [] else [ToLower(ToUpper(s[0]))] + CaseFold(s[1..])
  }

  lemma {:induction false} CaseFoldAppend(a: string, b: string)
    ensures CaseFold(a + b) == CaseFold(a) + CaseFold(b)
  {
    if a == [] {
      assert a + b == b;
    } else {
      assert (a + b)[0] == a[0] && (a + b)[1..] == a[1..] + b;
      CaseFoldAppend(a[1..], b);
    }
  }

  lemma {:induction false} CaseFoldLower(s: string)
    ensures CaseFold(LowerString(s)) == CaseFold(s)
  {
    if s != [] {
      CaseFoldLower(s[1..]);
      assert LowerString(s)[1..] == LowerString(s[1..]);
    }
  }

  lemma CaseFoldCapitalize(s: string)
    ensures CaseFold(Capitalize(s)) == CaseFold(s)
  {
    if s != [] {
      CaseFoldAppend([ToUpper(s[0])], s[1..]);
      CaseFoldAppend([s[0]], s[1..]);
      assert [s[0]] + s[1..] == s;
    }
  }

  /**
   * `xs.indexOf(x)`, with `|xs|` in place of `-1` when `x` is absent; on a
   * string it is also the split point that the pattern `${infer A}${C}${infer B}`
   * infers.
   */
  function IndexOf<T(==)>(xs: seq<T>, x: T): (i: nat)
    ensures i <= |xs|
  {
    if xs == [] then 0 else if xs[0] == x then 0 else 1 + IndexOf(xs[1..], x)
  }

  /** `IndexOf` finds the first occurrence, and `|xs|` exactly when there is none. */
  lemma {:induction false} IndexOfFinds<T>(xs: seq<T>, x: T)
    ensures var i := IndexOf(xs, x);
      (i < |xs| ==> xs[i] == x) && x !in xs[..i] && (i == |xs| <==> x !in xs)
  {
    if xs != [] && xs[0] != x {
      IndexOfFinds(xs[1..], x);
      var j := IndexOf(xs[1..], x);
      assert xs[..j + 1] == [xs[0]] + xs[1..][..j];
    }
  }
}
