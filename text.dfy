/**
  The pieces of Rust's `str` API that the Config.wtf code relies on, over
  `string` (= `seq<char>`): `char::is_whitespace`, `trim`, `starts_with`,
  `find` with a `char` pattern, `lines` and `join("\n")`.
 */
module Text {
  import opened Wrappers

  /** Rust's `char::is_whitespace`: the Unicode White_Space property. */
  predicate IsWhitespace(c: char) {
    || c == ' '
    || ('\t' <= c <= '\r')
    || c == '\U{0085}' || c == '\U{00A0}' || c == '\U{1680}'
    || ('\U{2000}' <= c <= '\U{200A}')
    || c == '\U{2028}' || c == '\U{2029}' || c == '\U{202F}' || c == '\U{205F}' || c == '\U{3000}'
  }

  /** `str::trim_start`: the suffix left after the leading whitespace run. */
  function TrimStart(s: string): (r: string)
    ensures |r| <= |s|
  {
    if s != [] && IsWhitespace(s[0]) then TrimStart(s[1..]) else s
  }

  /** `str::trim_end`: the prefix left before the trailing whitespace run. */
  function TrimEnd(s: string): (r: string)
    ensures |r| <= |s|
  {
    if s != [] && IsWhitespace(s[|s| - 1]) then TrimEnd(s[..|s| - 1]) else s
  }

  /**
    `trim_start` removes exactly the leading whitespace run: what it keeps is
    a suffix that starts with a non-whitespace character, and what it drops
    is all whitespace.
   */
  lemma {:induction false} TrimStartRemovesLeadingRun(s: string)
    ensures TrimStart(s) == s[|s| - |TrimStart(s)|..]
    ensures TrimStart(s) == [] || !IsWhitespace(TrimStart(s)[0])
    ensures forall i :: 0 <= i < |s| - |TrimStart(s)| ==> IsWhitespace(s[i])
  {
    if s != [] && IsWhitespace(s[0]) {
      TrimStartRemovesLeadingRun(s[1..]);
    }
  }

  /**
    `trim_end` removes exactly the trailing whitespace run: what it keeps is
    a prefix that ends with a non-whitespace character, and what it drops
    is all whitespace.
   */
  lemma {:induction false} TrimEndRemovesTrailingRun(s: string)
    ensures TrimEnd(s) == s[..|TrimEnd(s)|]
    ensures TrimEnd(s) == [] || !IsWhitespace(TrimEnd(s)[|TrimEnd(s)| - 1])
    ensures forall i :: |TrimEnd(s)| <= i < |s| ==> IsWhitespace(s[i])
  {
    if s != [] && IsWhitespace(s[|s| - 1]) {
      TrimEndRemovesTrailingRun(s[..|s| - 1]);
    }
  }

  /** `str::trim` */
  function Trim(s: string): string {
    TrimEnd(TrimStart(s))
  }

  /** `str::starts_with` with a string pattern. */
  predicate StartsWith(s: string, prefix: string) {
    |prefix| <= |s| && s[..|prefix|] == prefix
  }

  /** `str::find` with a `char` pattern: the index of the first occurrence. */
  function Find(s: string, c: char): (r: Option<nat>)
    ensures r.None? <==> c !in s
    ensures r.Some? ==> r.value < |s| && s[r.value] == c && c !in s[..r.value]
  {
    if s == [] then None
    else if s[0] == c then Some(0)
    else match Find(s[1..], c)
      case None => None
      case Some(i) =>
        assert s[..i + 1] == [s[0]] + s[1..][..i];
        Some(i + 1)
  }

  /** The one carriage return that `str::lines` drops in front of a line feed. */
  function StripCr(line: string): (r: string)
    ensures |r| <= |line| && r == line[..|r|]
  {
    if line != [] && line[|line| - 1] == '\r' then line[..|line| - 1] else line
  }

  /**
    `str::lines`: split after every line feed, drop "\n" or "\r\n" from the
    end of each piece; a text ending in a line feed has no empty last line,
    and a last piece without a line feed keeps any carriage return.
   */
  function Lines(s: string): (r: seq<string>)
    ensures forall i :: 0 <= i < |r| ==> '\n' !in r[i]
    decreases |s|
  {
    if s == [] then []
    else match Find(s, '\n')
      case None => [s]
      case Some(i) =>
        var head := StripCr(s[..i]);
        assert head == s[..i][..|head|];
        [head] + Lines(s[i + 1..])
  }

  /** `lines.join("\n")` */
  function Join(lines: seq<string>): string {
    if |lines| == 0 then []
    else if |lines| == 1 then lines[0]
    else lines[0] + "\n" + Join(lines[1..])
  }

  /** `StripCr` applied to every line. */
  function StripCrAll(lines: seq<string>): (r: seq<string>)
    ensures |r| == |lines|
    ensures forall i :: 0 <= i < |lines| ==> r[i] == StripCr(lines[i])
  {
    if lines == [] then [] else [StripCr(lines[0])] + StripCrAll(lines[1..])
  }

  /** The first occurrence of `c` is found where the `c`-free prefix ends. */
  lemma {:induction false} FindAfterPrefix(pre: string, c: char, post: string)
    requires c !in pre
    ensures Find(pre + [c] + post, c) == Some(|pre|)
  {
    var s := pre + [c] + post;
    assert s[|pre|] == c;
    assert s[..|pre|] == pre;
  }

  /**
    Splitting a joined, newline-terminated text gives back the lines, each
    without the one carriage return `str::lines` drops.
   */
  lemma {:induction false} LinesOfJoined(lines: seq<string>)
    requires |lines| > 0
    requires forall i :: 0 <= i < |lines| ==> '\n' !in lines[i]
    ensures Lines(Join(lines) + "\n") == StripCrAll(lines)
  {
    var l := lines[0];
    if |lines| == 1 {
      var s := l + "\n";
      FindAfterPrefix(l, '\n', []);
      assert s == l + ['\n'] + [];
      assert s[..|l|] == l;
      assert s[|l| + 1..] == [];
    } else {
      var rest := lines[1..];
      var s := Join(lines) + "\n";
      assert s == l + ['\n'] + (Join(rest) + "\n");
      FindAfterPrefix(l, '\n', Join(rest) + "\n");
      assert s[..|l|] == l;
      assert s[|l| + 1..] == Join(rest) + "\n";
      LinesOfJoined(rest);
    }
  }

  /** Appending one character to a text: `trim_start` either passes it through or sees only it. */
  lemma {:induction false} TrimStartSnoc(s: string, c: char)
    ensures TrimStart(s + [c]) == if TrimStart(s) == [] then TrimStart([c]) else TrimStart(s) + [c]
  {
    if s == [] {
      assert s + [c] == [c];
    } else if IsWhitespace(s[0]) {
      assert (s + [c])[1..] == s[1..] + [c];
      TrimStartSnoc(s[1..], c);
    }
  }

  /** Dropping a trailing carriage return never changes what `trim` sees. */
  lemma {:induction false} TrimIgnoresCr(line: string)
    ensures Trim(StripCr(line)) == Trim(line)
  {
    if line != [] && line[|line| - 1] == '\r' {
      var m := line[..|line| - 1];
      assert line == m + ['\r'];
      TrimStartSnoc(m, '\r');
      var t := TrimStart(m);
      if t != [] {
        assert (t + ['\r'])[..|t|] == t;
      }
    }
  }

  /** A text whose two ends are not whitespace is its own trim. */
  lemma {:induction false} TrimOfSolid(s: string)
    requires s != [] && !IsWhitespace(s[0]) && !IsWhitespace(s[|s| - 1])
    ensures Trim(s) == s
  {
  }
}
