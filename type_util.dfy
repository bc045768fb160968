/**
 * The recursive template-literal string types of src/runtime/types/util.ts,
 * read as functions on strings: `CamelCase`, `RemoveChar` and
 * `StripParentheses`. `Lowercase` and `Capitalize` act on ASCII letters.
 */
module TypeUtil {
  import opened Strings

  /** The characters of `s` other than `c`, in order: the reference for `RemoveChar`. */
  function Without(s: string, c: char): string
  {
    if s == [] then [] else (if s[0] == c then [] else [s[0]]) + Without(s[1..], c)
  }

  lemma {:induction false} WithoutRemovesAll(s: string, c: char)
    ensures c !in Without(s, c)
  {
    if s != [] {
      WithoutRemovesAll(s[1..], c);
    }
  }

  lemma {:induction false} WithoutKeepsAbsent(s: string, c: char, x: char)
    requires x !in s
    ensures x !in Without(s, c)
  {
    if s != [] {
      WithoutKeepsAbsent(s[1..], c, x);
    }
  }

  lemma {:induction false} WithoutAppend(a: string, b: string, c: char)
    ensures Without(a + b, c) == Without(a, c) + Without(b, c)
  {
    if a == [] {
      assert a + b == b;
    } else {
      assert (a + b)[0] == a[0] && (a + b)[1..] == a[1..] + b;
      WithoutAppend(a[1..], b, c);
    }
  }

  lemma {:induction false} WithoutAbsent(s: string, c: char)
    requires c !in s
    ensures Without(s, c) == s
  {
    if s != [] {
      WithoutAbsent(s[1..], c);
      assert [s[0]] + s[1..] == s;
    }
  }

  lemma WithoutSkip(s: string, i: nat, c: char)
    requires i < |s| && s[i] == c
    ensures Without(s, c) == Without(s[..i] + s[i + 1..], c)
  {
    var a, b := s[..i], s[i + 1..];
    assert s == a + ([c] + b);
    calc {
      Without(s, c);
      { WithoutAppend(a, [c] + b, c); }
      Without(a, c) + Without([c] + b, c);
      { WithoutAppend([c], b, c); assert Without([c], c) == []; }
      Without(a, c) + Without(b, c);
      { WithoutAppend(a, b, c); }
      Without(a + b, c);
    }
  }

  /**
   * `CamelCase<S>`: split at the first `-`, lower-case the part before it and
   * capitalise the conversion of the rest; a string without `-` is unchanged.
   */
  function CamelCase(s: string): string
    decreases |s|
  {
    var i := IndexOf(s, '-');
    if i < |s| then Hump(s[..i], CamelCase(s[i + 1..])) else s
  }

  /** One step of `CamelCase`: the lowered part before a `-` and the capitalised rest. */
  function Hump(head: string, tail: string): string
  {
    LowerString(head) + Capitalize(tail)
  }

  /** A string without `-` is returned unchanged. */
  lemma CamelCaseIdentity(s: string)
    requires '-' !in s
    ensures CamelCase(s) == s
  {
    IndexOfFinds(s, '-');
  }

  /** No `-` survives the conversion. */
  lemma {:induction false} CamelCaseHasNoHyphen(s: string)
    ensures '-' !in CamelCase(s)
    decreases |s|
  {
    var i := IndexOf(s, '-');
    IndexOfFinds(s, '-');
    if i < |s| {
      var rest := CamelCase(s[i + 1..]);
      CamelCaseHasNoHyphen(s[i + 1..]);
      LowerKeepsAbsent(s[..i], '-');
      if rest != [] {
        assert Capitalize(rest) == [ToUpper(rest[0])] + rest[1..];
      }
      assert CamelCase(s) == Hump(s[..i], rest);
    }
  }

  /**
   * Apart from letter case, `CamelCase` only removes the hyphens: the result
   * and the input without its hyphens agree once case is folded.
   */
  lemma {:induction false} CamelCaseDropsOnlyHyphens(s: string)
    ensures CaseFold(CamelCase(s)) == CaseFold(Without(s, '-'))
    decreases |s|
  {
    var i := IndexOf(s, '-');
    IndexOfFinds(s, '-');
    if i < |s| {
      CamelCaseFoldStep(s, i);
      WithoutFoldStep(s, i);
      CamelCaseDropsOnlyHyphens(s[i + 1..]);
    } else {
      WithoutAbsent(s, '-');
    }
  }

  lemma CamelCaseFoldStep(s: string, i: nat)
    requires i == IndexOf(s, '-') < |s|
    ensures CaseFold(CamelCase(s)) == CaseFold(s[..i]) + CaseFold(CamelCase(s[i + 1..]))
  {
    CamelCaseUnfold(s, i);
    HumpFold(s[..i], CamelCase(s[i + 1..]));
  }

  lemma CamelCaseUnfold(s: string, i: nat)
    requires i == IndexOf(s, '-') < |s|
    ensures CamelCase(s) == Hump(s[..i], CamelCase(s[i + 1..]))
  {
  }

  /**
   * `CamelCase<`${A}-${B}`>` with no `-` in `A`: `A` lower-cased, then the
   * converted rest with its first letter capitalised.
   */
  lemma CamelCaseAtHyphen(a: string, b: string)
    requires '-' !in a
    ensures CamelCase(a + "-" + b) == LowerString(a) + Capitalize(CamelCase(b))
  {
    var s := a + "-" + b;
    IndexOfFinds(s, '-');
    var i := IndexOf(s, '-');
    assert s[..|a|] == a && s[|a|] == '-';
    assert i == |a|;
    assert s[i + 1..] == b;
    CamelCaseUnfold(s, i);
  }

  /** Folded, a hump is just its two parts. */
  lemma HumpFold(head: string, tail: string)
    ensures CaseFold(Hump(head, tail)) == CaseFold(head) + CaseFold(tail)
  {
    CaseFoldAppend(LowerString(head), Capitalize(tail));
    CaseFoldLower(head);
    CaseFoldCapitalize(tail);
  }

  lemma WithoutFoldStep(s: string, i: nat)
    requires i == IndexOf(s, '-') < |s|
    ensures CaseFold(Without(s, '-')) == CaseFold(s[..i]) + CaseFold(Without(s[i + 1..], '-'))
  {
    var head, rest := s[..i], s[i + 1..];
    IndexOfFinds(s, '-');
    WithoutSkip(s, i, '-');
    WithoutAppend(head, rest, '-');
    WithoutAbsent(head, '-');
    CaseFoldAppend(head, Without(rest, '-'));
  }

  /** A kebab-case key of the generated routes. */
  lemma CamelCaseExample()
    ensures CamelCase("user-id") == "userId"
  {
    UserIdSplit("user-id");
    CamelCaseUnfold("user-id", 4);
    CamelCaseIdentity("id");
    UserIdHump("user", "id");
  }

  lemma UserIdSplit(s: string)
    requires s == "user-id"
    ensures IndexOf(s, '-') == 4 && s[..4] == "user" && s[5..] == "id"
  {
    var t := s[4..];
    assert t == "-id" && t[0] == '-';
    assert IndexOf(t, '-') == 0;
    assert s[3..][1..] == t && s[3..][0] != '-';
    assert IndexOf(s[3..], '-') == 1;
    assert s[2..][1..] == s[3..] && s[2..][0] != '-';
    assert IndexOf(s[2..], '-') == 2;
    assert s[1..][1..] == s[2..] && s[1..][0] != '-';
    assert IndexOf(s[1..], '-') == 3;
  }

  lemma UserIdHump(head: string, tail: string)
    requires head == "user" && tail == "id"
    ensures Hump(head, tail) == "userId"
  {
    assert LowerString(head[3..]) == "r";
    assert LowerString(head[2..]) == "er";
    assert LowerString(head[1..]) == "ser";
    assert LowerString(head) == "user";
    assert Capitalize(tail) == "Id";
  }

  /** `RemoveChar<S, C>` for a one-character `C`: remove the first `C` and repeat. */
  function RemoveChar(s: string, c: char): string
    decreases |s|
  {
    var i := IndexOf(s, c);
    if i < |s| then RemoveChar(s[..i] + s[i + 1..], c) else s
  }

  /** `RemoveChar` keeps every other character, in order. */
  lemma {:induction false} RemoveCharKeepsOrder(s: string, c: char)
    ensures RemoveChar(s, c) == Without(s, c)
    decreases |s|
  {
    var i := IndexOf(s, c);
    IndexOfFinds(s, c);
    if i < |s| {
      var a, b := s[..i], s[i + 1..];
      assert RemoveChar(s, c) == RemoveChar(a + b, c);
      RemoveCharKeepsOrder(a + b, c);
      WithoutSkip(s, i, c);
    } else {
      WithoutAbsent(s, c);
    }
  }

  /** No occurrence of `C` survives. */
  lemma RemoveCharRemovesAll(s: string, c: char)
    ensures c !in RemoveChar(s, c)
  {
    RemoveCharKeepsOrder(s, c);
    WithoutRemovesAll(s, c);
  }

  /** `RemoveChar` is the identity on strings without `C`. */
  lemma RemoveCharAbsent(s: string, c: char)
    requires c !in s
    ensures RemoveChar(s, c) == s
  {
    IndexOfFinds(s, c);
  }

  /** `StripParentheses<S>`. */
  function StripParentheses(s: string): string
  {
    RemoveChar(RemoveChar(s, '('), ')')
  }

  /** No parenthesis survives `StripParentheses`. */
  lemma StripParenthesesRemovesParens(s: string)
    ensures '(' !in StripParentheses(s) && ')' !in StripParentheses(s)
  {
    var t := RemoveChar(s, '(');
    RemoveCharRemovesAll(s, '(');
    RemoveCharKeepsOrder(t, ')');
    WithoutKeepsAbsent(t, ')', '(');
    WithoutRemovesAll(t, ')');
  }
}
