/**
  The preferred-locale filter (src/main.rs:444-462): keep the first four
  ASCII letters of what the user typed, or fall back to `enUS`.
 */
module PreferredLocale {

  const DefaultLocale: string := "enUS"

  /** At most this many letters are kept. */
  const MaxLocaleLength: nat := 4

  /** `char::is_ascii_alphabetic` */
  predicate IsAsciiLetter(c: char) {
    'A' <= c <= 'Z' || 'a' <= c <= 'z'
  }

  predicate AllLetters(s: string) {
    forall i :: 0 <= i < |s| ==> IsAsciiLetter(s[i])
  }

  /** A value the filter leaves alone: one to four ASCII letters. */
  predicate IsValidLocale(s: string) {
    1 <= |s| <= MaxLocaleLength && AllLetters(s)
  }

  /** All ASCII letters of `s`, in order: `chars().filter(is_ascii_alphabetic)`. */
  function Letters(s: string): (r: string)
    ensures |r| <= |s| && AllLetters(r)
  {
    if s == [] then []
    else if IsAsciiLetter(s[0]) then [s[0]] + Letters(s[1..])
    else Letters(s[1..])
  }

  /**
    The lazy iterator `chars().filter(is_ascii_alphabetic).take(n)`: it
    walks the input only until it has collected `n` letters.
   */
  function TakeLetters(s: string, n: nat): string
    decreases |s|
  {
    if n == 0 || s == [] then []
    else if IsAsciiLetter(s[0]) then [s[0]] + TakeLetters(s[1..], n - 1)
    else TakeLetters(s[1..], n)
  }

  function Min(a: nat, b: nat): nat {
    if a < b then a else b
  }

  /** Taking `n` letters lazily is filtering all letters, then keeping the first `n`. */
  lemma {:induction false} TakeLettersIsPrefixOfLetters(s: string, n: nat)
    ensures TakeLetters(s, n) == Letters(s)[..Min(n, |Letters(s)|)]
    decreases |s|
  {
    if n != 0 && s != [] {
      TakeLettersIsPrefixOfLetters(s[1..], if IsAsciiLetter(s[0]) then n - 1 else n);
    }
  }

  /** The value the field holds after the filter runs. */
  function Normalize(s: string): string {
    var filtered := TakeLetters(s, MaxLocaleLength);
    if filtered == [] then DefaultLocale else filtered
  }

  /** A text of letters only is its own filter. */
  lemma {:induction false} LettersOfLetters(s: string)
    requires AllLetters(s)
    ensures Letters(s) == s
  {
    if s != [] {
      LettersOfLetters(s[1..]);
    }
  }

  /**
    The filter yields one to four ASCII letters: the first four letters of
    the input, or `enUS` when the input has none.
   */
  lemma {:induction false} NormalizeIsFirstLetters(s: string)
    ensures IsValidLocale(Normalize(s))
    ensures Letters(s) == [] ==> Normalize(s) == DefaultLocale
    ensures Letters(s) != [] ==> Normalize(s) == Letters(s)[..Min(MaxLocaleLength, |Letters(s)|)]
  {
    TakeLettersIsPrefixOfLetters(s, MaxLocaleLength);
  }

  /** A value is left unchanged exactly when it is already one to four ASCII letters. */
  lemma {:induction false} NormalizeFixesExactlyValid(s: string)
    ensures Normalize(s) == s <==> IsValidLocale(s)
  {
    NormalizeIsFirstLetters(s);
    if IsValidLocale(s) {
      LettersOfLetters(s);
    }
  }

  /** Normalizing twice is normalizing once. */
  lemma {:induction false} NormalizeIdempotent(s: string)
    ensures Normalize(Normalize(s)) == Normalize(s)
  {
    NormalizeIsFirstLetters(s);
    NormalizeFixesExactlyValid(Normalize(s));
  }
}
