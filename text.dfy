/** The string operations the engine applies to names and postcodes:
    Python's `str.title()` (on ASCII letters) and `str.startswith`. */
module Text {

  predicate IsUpper(c: char) { 'A' <= c <= 'Z' }

  predicate IsLower(c: char) { 'a' <= c <= 'z' }

  /** A cased character; every other character separates words for `title()`. */
  predicate IsCased(c: char) { IsUpper(c) || IsLower(c) }

  function ToUpper(c: char): (u: char)
    ensures IsCased(u) == IsCased(c)
    ensures !IsLower(u)
    ensures IsLower(c) ==> u as int == c as int - 32
    ensures !IsLower(c) ==> u == c
  {
    if IsLower(c) then (c as int - 32) as char else c
  }

  function ToLower(c: char): (l: char)
    ensures IsCased(l) == IsCased(c)
    ensures !IsUpper(l)
    ensures IsUpper(c) ==> l as int == c as int + 32
    ensures !IsUpper(c) ==> l == c
  {
    if IsUpper(c) then (c as int + 32) as char else c
  }

  /** `title()` of `s` when the character before `s` was cased (`afterCased`) or not:
      a cased character that follows a cased one is lower-cased, any other is upper-cased. */
  function TitleFrom(s: string, afterCased: bool): (t: string)
    ensures |t| == |s|
  {
    if s == [] then []
    else [if afterCased then ToLower(s[0]) else ToUpper(s[0])] + TitleFrom(s[1..], IsCased(s[0]))
  }

  /** Python's `str.title()` restricted to ASCII letters. */
  function TitleCase(s: string): (t: string)
    ensures |t| == |s|
  {
    TitleFrom(s, false)
  }

  /** Character `i` of `title()`: it starts a word exactly when the character before it is not cased. */
  predicate StartsWord(s: string, i: nat)
    requires i < |s|
  {
    i == 0 || !IsCased(s[i - 1])
  }

  lemma {:induction false} TitleFromAt(s: string, afterCased: bool, i: nat)
    requires i < |s|
    ensures TitleFrom(s, afterCased)[i] ==
      if (if i == 0 then afterCased else IsCased(s[i - 1])) then ToLower(s[i]) else ToUpper(s[i])
  {
    if i > 0 {
      TitleFromAt(s[1..], IsCased(s[0]), i - 1);
      assert s[1..][i - 1] == s[i];
      if i > 1 {
        assert s[1..][i - 2] == s[i - 1];
      }
    }
  }

  /** Every character of `title(s)`: the first letter of each word upper-case, the
      other letters lower-case, everything else unchanged. */
  lemma TitleCaseAt(s: string, i: nat)
    requires i < |s|
    ensures TitleCase(s)[i] == if StartsWord(s, i) then ToUpper(s[i]) else ToLower(s[i])
    ensures !IsCased(s[i]) ==> TitleCase(s)[i] == s[i]
  {
    TitleFromAt(s, false, i);
  }

  /** `title()` keeps word boundaries where they were. */
  lemma TitleCaseKeepsCasedness(s: string, i: nat)
    requires i < |s|
    ensures IsCased(TitleCase(s)[i]) == IsCased(s[i])
  {
    TitleCaseAt(s, i);
  }

  /** Title-casing an already title-cased name changes nothing. */
  lemma TitleCaseIdempotent(s: string)
    ensures TitleCase(TitleCase(s)) == TitleCase(s)
  {
    var t := TitleCase(s);
    forall i | 0 <= i < |t|
      ensures TitleCase(t)[i] == t[i]
    {
      TitleCaseAt(t, i);
      TitleCaseAt(s, i);
      if i > 0 {
        TitleCaseKeepsCasedness(s, i - 1);
      }
    }
  }

  /** Title-casing works word by word: the casing of the rest depends only on
      whether the last character before it was cased. */
  lemma {:induction false} TitleFromAppend(a: string, b: string, afterCased: bool)
    ensures TitleFrom(a + b, afterCased) ==
      TitleFrom(a, afterCased) + TitleFrom(b, if a == [] then afterCased else IsCased(a[|a| - 1]))
  {
    if a == [] {
      assert a + b == b;
    } else {
      assert (a + b)[1..] == a[1..] + b;
      TitleFromAppend(a[1..], b, IsCased(a[0]));
      if |a| > 1 {
        assert a[1..][|a| - 2] == a[|a| - 1];
      }
    }
  }

  /** Python's `s.startswith(prefix)`. */
  predicate StartsWith(s: string, prefix: string)
  {
    |prefix| <= |s| && s[..|prefix|] == prefix
  }
}
