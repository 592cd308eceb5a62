/**
 * The Python string operations the pipeline relies on, restricted to ASCII
 * letters: `str.lower()`, `str.title()`, `str.replace()` of one character,
 * `str.startswith()` and `str.endswith()`.
 */
module Strings {

  predicate IsUpper(c: char) { 'A' <= c <= 'Z' }
  predicate IsLower(c: char) { 'a' <= c <= 'z' }

  /** A letter that has an upper and a lower case form. */
  predicate IsCased(c: char) { IsUpper(c) || IsLower(c) }

  function ToLower(c: char): (r: char)
    ensures IsCased(r) == IsCased(c)
    ensures !IsUpper(r)
  {
    if IsUpper(c) then c - 'A' + 'a' else c
  }

  function ToUpper(c: char): (r: char)
    ensures IsCased(r) == IsCased(c)
    ensures !IsLower(r)
  {
    if IsLower(c) then c - 'a' + 'A' else c
  }

  /** `s.lower()` */
  function Lower(s: string): (r: string)
    ensures |r| == |s|
    ensures forall i :: 0 <= i < |s| ==> !IsUpper(r[i])
    ensures forall i :: 0 <= i < |s| ==> !IsUpper(s[i]) ==> r[i] == s[i]
    ensures forall i :: 0 <= i < |s| ==> IsUpper(s[i]) ==> IsLower(r[i]) && ToUpper(r[i]) == s[i]
  {
    seq(|s|, i requires 0 <= i < |s| => ToLower(s[i]))
  }

  /** Lower-casing an already lower-cased string changes nothing. */
  lemma LowerIdempotent(s: string)
    ensures Lower(Lower(s)) == Lower(s)
  {
  }

  /**
   * `s.title()` continued after a character whose casedness is `afterCased`:
   * a cased letter is upper-cased when it starts a run of cased letters and
   * lower-cased inside one; every other character is kept.
   */
  function TitleFrom(s: string, afterCased: bool): (r: string)
    ensures |r| == |s|
  {
    if s == [] then []
    else [if afterCased then ToLower(s[0]) else ToUpper(s[0])] + TitleFrom(s[1..], IsCased(s[0]))
  }

  /** `s.title()` */
  function Title(s: string): string
  {
    TitleFrom(s, false)
  }

  /** Casedness of every character survives title-casing. */
  lemma {:induction false} TitleFromKeepsCasedness(s: string, afterCased: bool, i: nat)
    requires i < |s|
    ensures IsCased(TitleFrom(s, afterCased)[i]) == IsCased(s[i])
    ensures !IsCased(s[i]) ==> TitleFrom(s, afterCased)[i] == s[i]
  {
    if i > 0 {
      TitleFromKeepsCasedness(s[1..], IsCased(s[0]), i - 1);
    }
  }

  /** Title-casing a title-cased string changes nothing. */
  lemma {:induction false} TitleFromIdempotent(s: string, afterCased: bool)
    ensures TitleFrom(TitleFrom(s, afterCased), afterCased) == TitleFrom(s, afterCased)
  {
    if s != [] {
      var t := TitleFrom(s, afterCased);
      TitleFromKeepsCasedness(s, afterCased, 0);
      assert t[1..] == TitleFrom(s[1..], IsCased(s[0]));
      TitleFromIdempotent(s[1..], IsCased(s[0]));
    }
  }

  /** `title()` is idempotent. */
  lemma TitleIdempotent(s: string)
    ensures Title(Title(s)) == Title(s)
  {
    TitleFromIdempotent(s, false);
  }

  /** Title-casing changes only the case of a letter, never the letter. */
  lemma {:induction false} TitleFromKeepsLetters(s: string, afterCased: bool, i: nat)
    requires i < |s|
    ensures ToLower(TitleFrom(s, afterCased)[i]) == ToLower(s[i])
  {
    if i > 0 {
      TitleFromKeepsLetters(s[1..], IsCased(s[0]), i - 1);
    }
  }

  /** `title()` keeps every letter up to case. */
  lemma TitleKeepsLetters(s: string, i: nat)
    requires i < |s|
    ensures ToLower(Title(s)[i]) == ToLower(s[i])
  {
    TitleFromKeepsLetters(s, false, i);
  }

  /** Each word starts upper-case and continues lower-case. */
  lemma {:induction false} TitleCapitalisesWords(s: string, i: nat)
    requires i < |s|
    ensures i == 0 || !IsCased(s[i - 1]) ==> !IsLower(Title(s)[i])
    ensures 0 < i && IsCased(s[i - 1]) ==> !IsUpper(Title(s)[i])
  {
    TitleFromWordStart(s, false, i);
  }

  lemma {:induction false} TitleFromWordStart(s: string, afterCased: bool, i: nat)
    requires i < |s|
    ensures (if i == 0 then afterCased else IsCased(s[i - 1])) ==> !IsUpper(TitleFrom(s, afterCased)[i])
    ensures !(if i == 0 then afterCased else IsCased(s[i - 1])) ==> !IsLower(TitleFrom(s, afterCased)[i])
  {
    if i > 0 {
      TitleFromWordStart(s[1..], IsCased(s[0]), i - 1);
    }
  }

  /** Title-casing works left to right: a split point only passes on whether a cased character precedes it. */
  lemma {:induction false} TitleFromConcat(a: string, b: string, afterCased: bool)
    ensures TitleFrom(a + b, afterCased)
      == TitleFrom(a, afterCased) + TitleFrom(b, if a == [] then afterCased else IsCased(a[|a| - 1]))
  {
    if a == [] {
      assert a + b == b;
    } else {
      assert (a + b)[1..] == a[1..] + b;
      TitleFromConcat(a[1..], b, IsCased(a[0]));
    }
  }

  /** A run of lower-case letters after a cased character is left as it is. */
  lemma {:induction false} TitleFromLowerRun(s: string)
    requires forall i :: 0 <= i < |s| ==> IsLower(s[i])
    ensures TitleFrom(s, true) == s
  {
    if s != [] {
      TitleFromLowerRun(s[1..]);
    }
  }

  /** A lower-case word gets its first letter capitalised. */
  lemma TitleOfWord(w: string)
    requires |w| > 0 && forall i :: 0 <= i < |w| ==> IsLower(w[i])
    ensures Title(w) == [ToUpper(w[0])] + w[1..]
  {
    TitleFromLowerRun(w[1..]);
  }

  /** `s.replace(old, new)` for single characters. */
  function ReplaceChar(s: string, from: char, to: char): (r: string)
    ensures |r| == |s|
    ensures forall i :: 0 <= i < |s| ==> r[i] == if s[i] == from then to else s[i]
  {
    seq(|s|, i requires 0 <= i < |s| => if s[i] == from then to else s[i])
  }

  /** `s.replace(c, '')`: every `c` removed, everything else kept in order. */
  function RemoveChar(s: string, c: char): (r: string)
    ensures c !in r
    ensures |r| <= |s|
  {
    if s == [] then []
    else (if s[0] == c then [] else [s[0]]) + RemoveChar(s[1..], c)
  }

  /** Removing a character keeps the count of every other character. */
  lemma {:induction false} RemoveCharKeepsOthers(s: string, c: char, d: char)
    requires d != c
    ensures multiset(RemoveChar(s, c))[d] == multiset(s)[d]
    ensures multiset(RemoveChar(s, c))[c] == 0
  {
    if s != [] {
      RemoveCharKeepsOthers(s[1..], c, d);
      assert s == [s[0]] + s[1..];
    }
  }

  /** Removal works piece by piece, so what is kept stays in order. */
  lemma {:induction false} RemoveCharAppend(a: string, b: string, c: char)
    ensures RemoveChar(a + b, c) == RemoveChar(a, c) + RemoveChar(b, c)
  {
    if a == [] {
      assert a + b == b;
    } else {
      assert (a + b)[0] == a[0];
      assert (a + b)[1..] == a[1..] + b;
      RemoveCharAppend(a[1..], b, c);
      var head := if a[0] == c then [] else [a[0]];
      calc {
        RemoveChar(a + b, c);
        head + RemoveChar(a[1..] + b, c);
        head + (RemoveChar(a[1..], c) + RemoveChar(b, c));
        (head + RemoveChar(a[1..], c)) + RemoveChar(b, c);
      }
    }
  }

  /** On one character: `c` disappears, any other character stays. */
  lemma RemoveCharSingle(d: char, c: char)
    ensures RemoveChar([d], c) == if d == c then [] else [d]
  {
    assert [d][1..] == [];
  }

  /** A string without `c` is left as it is. */
  lemma {:induction false} RemoveCharAbsent(s: string, c: char)
    requires c !in s
    ensures RemoveChar(s, c) == s
  {
    if s != [] {
      RemoveCharAbsent(s[1..], c);
    }
  }

  predicate StartsWith(s: string, prefix: string) {
    |prefix| <= |s| && s[..|prefix|] == prefix
  }

  predicate EndsWith(s: string, suffix: string) {
    |suffix| <= |s| && s[|s| - |suffix|..] == suffix
  }
}
