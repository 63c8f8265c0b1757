/**
  The two locale settings of a Config.wtf file: how a text is scanned for
  `SET audioLocale "…"` and `SET textLocale "…"`, how a file is rewritten
  to a preferred locale, and what the app caches after a refresh.
 */
module LocaleConfig {
  import opened Wrappers
  import opened Text
  import opened Disk

  const AudioKey: string := "SET audioLocale"
  const TextKey: string := "SET textLocale"

  /** Files of this many bytes or more are neither read nor rewritten. */
  const MaxConfigSize: nat := 8192

  /** What both cached values become when the size guard trips. */
  const TooLargeSentinel: string := "(file too large)"

  /** The cached `audio_locale` and `text_locale`. */
  datatype Locales = Locales(audio: Option<string>, text: Option<string>)

  const NoLocales := Locales(None, None)

  /** A line cannot match both keys: they differ at their fifth character. */
  lemma {:induction false} KeysExclusive(t: string)
    ensures !(StartsWith(t, AudioKey) && StartsWith(t, TextKey))
  {
    if StartsWith(t, AudioKey) {
      assert t[4] == AudioKey[4] != TextKey[4];
    }
  }

  // ---------------------------------------------------------------- reading

  /** The text between the first `"` and the next one, if there is a next one. */
  function QuotedValue(s: string): (r: Option<string>)
    ensures r.Some? ==> '"' !in r.value
  {
    match Find(s, '"')
    case None => None
    case Some(first) =>
      var rest := s[first + 1..];
      match Find(rest, '"')
      case None => None
      case Some(end) => Some(rest[..end])
  }

  /** A line yields a quoted value exactly when it holds at least two quotes. */
  lemma {:induction false} QuotedValueNeedsTwoQuotes(s: string)
    ensures QuotedValue(s).None? <==> multiset(s)['"'] < 2
  {
    match Find(s, '"')
    case None =>
    case Some(first) =>
      var rest := s[first + 1..];
      assert s == s[..first] + [s[first]] + rest;
      assert multiset(s)['"'] == 1 + multiset(rest)['"'];
  }

  /** A quoted value is read back exactly when nothing before it is a quote. */
  lemma {:induction false} QuotedValueOf(pre: string, v: string, post: string)
    requires '"' !in pre && '"' !in v
    ensures QuotedValue(pre + ['"'] + v + ['"'] + post) == Some(v)
  {
    var s := pre + ['"'] + v + ['"'] + post;
    assert s == pre + ['"'] + (v + ['"'] + post);
    FindAfterPrefix(pre, '"', v + ['"'] + post);
    assert s[|pre| + 1..] == v + ['"'] + post;
    FindAfterPrefix(v, '"', post);
    assert (v + ['"'] + post)[..|v|] == v;
  }

  /** The value one line gives `key`: its first quoted text, when its trimmed form starts with `key`. */
  function KeyValue(line: string, key: string): Option<string> {
    var t := Trim(line);
    if StartsWith(t, key) then QuotedValue(t) else None
  }

  /** One pass of the scan loop (src/main.rs:201-216). */
  function ScanLine(acc: Locales, line: string): Locales {
    var t := Trim(line);
    if StartsWith(t, AudioKey) then
      (match QuotedValue(t) case Some(v) => acc.(audio := Some(v)) case None => acc)
    else if StartsWith(t, TextKey) then
      (match QuotedValue(t) case Some(v) => acc.(text := Some(v)) case None => acc)
    else acc
  }

  /** The scan loop over the lines, first to last. */
  function ScanLines(acc: Locales, lines: seq<string>): Locales
    decreases |lines|
  {
    if lines == [] then acc
    else ScanLine(ScanLines(acc, lines[..|lines| - 1]), lines[|lines| - 1])
  }

  /** The parse of a whole text, starting from no values. */
  function Parse(text: string): Locales {
    ScanLines(NoLocales, Lines(text))
  }

  /** The index of the last line that gives `key` a value. */
  function LastKeyLine(lines: seq<string>, key: string): (r: Option<nat>)
    ensures r.None? ==> forall j :: 0 <= j < |lines| ==> KeyValue(lines[j], key).None?
    ensures r.Some? ==> r.value < |lines| && KeyValue(lines[r.value], key).Some?
    ensures r.Some? ==> forall j :: r.value < j < |lines| ==> KeyValue(lines[j], key).None?
    decreases |lines|
  {
    if lines == [] then None
    else if KeyValue(lines[|lines| - 1], key).Some? then Some(|lines| - 1)
    else
      var r := LastKeyLine(lines[..|lines| - 1], key);
      assert forall j :: 0 <= j < |lines| - 1 ==> lines[..|lines| - 1][j] == lines[j];
      r
  }

  /** The value of `key` in the lines, if any line gives it one: the last such line wins. */
  function LastKeyValue(lines: seq<string>, key: string): Option<string> {
    match LastKeyLine(lines, key)
    case None => None
    case Some(i) => KeyValue(lines[i], key)
  }

  /**
    The scan leaves each value at the one given by the LAST matching line
    with a closing quote, and where no line gives one, at its value before.
   */
  lemma {:induction false} ScanFindsLastValue(acc: Locales, lines: seq<string>)
    ensures ScanLines(acc, lines).audio ==
      (if LastKeyLine(lines, AudioKey).Some? then LastKeyValue(lines, AudioKey) else acc.audio)
    ensures ScanLines(acc, lines).text ==
      (if LastKeyLine(lines, TextKey).Some? then LastKeyValue(lines, TextKey) else acc.text)
    decreases |lines|
  {
    if lines != [] {
      var init := lines[..|lines| - 1];
      var last := lines[|lines| - 1];
      ScanFindsLastValue(acc, init);
      KeysExclusive(Trim(last));
    }
  }

  // ---------------------------------------------------------------- refreshing

  /**
    What `update_locales` caches once it decides to re-parse (src/main.rs:180-218):
    nothing for an empty or missing path, the sentinel for a file of 8192
    bytes or more, nothing when the file cannot be read as text, and the
    parse of its text otherwise.
   */
  function Refresh(fs: FileSystem, path: string): (r: Locales)
    ensures !Exists(fs, path) ==> r == NoLocales
    ensures Exists(fs, path) && Size(fs[path]) >= MaxConfigSize ==>
      r == Locales(Some(TooLargeSentinel), Some(TooLargeSentinel))
    ensures Exists(fs, path) && Size(fs[path]) < MaxConfigSize && !fs[path].TextFile? ==> r == NoLocales
  {
    if path == "" || !Exists(fs, path) then NoLocales
    else if Size(fs[path]) >= MaxConfigSize then Locales(Some(TooLargeSentinel), Some(TooLargeSentinel))
    else match ReadToString(fs[path])
      case None => NoLocales
      case Some(text) => Parse(text)
  }

  /** A readable file under the guard yields, per key, the value of its last matching line. */
  lemma {:induction false} RefreshReadsLastValues(fs: FileSystem, path: string)
    requires Exists(fs, path) && fs[path].TextFile? && Size(fs[path]) < MaxConfigSize
    ensures Refresh(fs, path) ==
      Locales(LastKeyValue(Lines(fs[path].contents), AudioKey), LastKeyValue(Lines(fs[path].contents), TextKey))
  {
    ScanFindsLastValue(NoLocales, Lines(fs[path].contents));
  }

  // ---------------------------------------------------------------- rewriting

  /** `SET audioLocale "<pref>"` or `SET textLocale "<pref>"` */
  function KeyLine(key: string, pref: string): string {
    key + " \"" + pref + "\""
  }

  /** One pass of the rewrite loop (src/main.rs:241-248). */
  function RewriteLine(line: string, pref: string): string {
    if IsKeyLine(line, AudioKey) then KeyLine(AudioKey, pref)
    else if IsKeyLine(line, TextKey) then KeyLine(TextKey, pref)
    else line
  }

  /** The trimmed line starts with `key`: a prefix match, so `SET audioLocaleX` and indented lines count. */
  predicate IsKeyLine(line: string, key: string) {
    StartsWith(Trim(line), key)
  }

  /** Some line is a `key` line. */
  predicate HasKeyLine(lines: seq<string>, key: string) {
    exists i :: 0 <= i < |lines| && IsKeyLine(lines[i], key)
  }

  /** The key lines to append: audio before text, each only when no line has that key. */
  function MissingKeyLines(lines: seq<string>, pref: string): seq<string> {
    (if HasKeyLine(lines, AudioKey) then [] else [KeyLine(AudioKey, pref)])
    + (if HasKeyLine(lines, TextKey) then [] else [KeyLine(TextKey, pref)])
  }

  /** Every line rewritten in place, then the missing key lines appended. */
  function RewrittenLines(lines: seq<string>, pref: string): seq<string> {
    seq(|lines|, i requires 0 <= i < |lines| => RewriteLine(lines[i], pref))
    + MissingKeyLines(lines, pref)
  }

  /** The text written back: the lines joined by "\n", plus one trailing "\n". */
  function Render(lines: seq<string>): string {
    Join(lines) + "\n"
  }

  /**
    The rewrite loop of `update_config_file_locales` (src/main.rs:237-255),
    changing the line vector in place and keeping the two found flags.
   */
  method RewriteConfigLines(lines: seq<string>, pref: string) returns (out: seq<string>)
    ensures out == RewrittenLines(lines, pref)
  {
    out := lines;
    var foundAudio := false;
    var foundText := false;
    var i := 0;
    while i < |out|
      invariant 0 <= i <= |lines| == |out|
      invariant forall j :: 0 <= j < i ==> out[j] == RewriteLine(lines[j], pref)
      invariant forall j :: i <= j < |out| ==> out[j] == lines[j]
      invariant foundAudio == HasKeyLine(lines[..i], AudioKey)
      invariant foundText == HasKeyLine(lines[..i], TextKey)
    {
      HasKeyLineSnoc(lines, i, AudioKey);
      HasKeyLineSnoc(lines, i, TextKey);
      assert out[i] == lines[i];
      ghost var before := out;
      var s := Trim(out[i]);
      KeysExclusive(s);
      if StartsWith(s, AudioKey) {
        out := out[i := KeyLine(AudioKey, pref)];
        foundAudio := true;
      } else if StartsWith(s, TextKey) {
        out := out[i := KeyLine(TextKey, pref)];
        foundText := true;
      }
      assert out == before[i := RewriteLine(lines[i], pref)];
      i := i + 1;
    }
    assert lines[..i] == lines;
    ghost var rewritten := out;
    if !foundAudio {
      out := out + [KeyLine(AudioKey, pref)];
    }
    if !foundText {
      out := out + [KeyLine(TextKey, pref)];
    }
    AppendMissing(lines, pref, rewritten, foundAudio, foundText);
  }

  /** The in-place pass followed by the pushes for the keys not found is `RewrittenLines`. */
  lemma {:induction false} AppendMissing(lines: seq<string>, pref: string, rewritten: seq<string>,
                                         foundAudio: bool, foundText: bool)
    requires |rewritten| == |lines|
    requires forall j :: 0 <= j < |lines| ==> rewritten[j] == RewriteLine(lines[j], pref)
    requires foundAudio == HasKeyLine(lines, AudioKey) && foundText == HasKeyLine(lines, TextKey)
    ensures rewritten + (if foundAudio then [] else [KeyLine(AudioKey, pref)])
      + (if foundText then [] else [KeyLine(TextKey, pref)]) == RewrittenLines(lines, pref)
  {
    assert rewritten == seq(|lines|, j requires 0 <= j < |lines| => RewriteLine(lines[j], pref));
  }

  /** Looking at one more line finds a `key` line when that line is one. */
  lemma {:induction false} HasKeyLineSnoc(lines: seq<string>, i: nat, key: string)
    requires i < |lines|
    ensures HasKeyLine(lines[..i + 1], key) == (HasKeyLine(lines[..i], key) || IsKeyLine(lines[i], key))
  {
    var pre := lines[..i + 1];
    if HasKeyLine(lines[..i], key) {
      var j :| 0 <= j < i && IsKeyLine(lines[..i][j], key);
      assert pre[j] == lines[..i][j];
    }
    if HasKeyLine(pre, key) && !IsKeyLine(lines[i], key) {
      var j :| 0 <= j < i + 1 && IsKeyLine(pre[j], key);
      assert j < i && lines[..i][j] == pre[j];
    }
    if IsKeyLine(lines[i], key) {
      assert pre[i] == lines[i];
    }
  }

  /**
    What the rewrite does to the line vector: a line whose trimmed form
    starts with neither key stays as it was, in its place; a key line
    becomes exactly `SET <key> "<pref>"`; then come the missing keys, audio
    before text, so the count grows by the number of keys no line has.
   */
  lemma {:induction false} RewrittenLinesShape(lines: seq<string>, pref: string)
    ensures var out := RewrittenLines(lines, pref);
      && |out| == |lines| + (if HasKeyLine(lines, AudioKey) then 0 else 1) + (if HasKeyLine(lines, TextKey) then 0 else 1)
      && (forall i :: 0 <= i < |lines| && IsKeyLine(lines[i], AudioKey) ==> out[i] == KeyLine(AudioKey, pref))
      && (forall i :: 0 <= i < |lines| && IsKeyLine(lines[i], TextKey) ==> out[i] == KeyLine(TextKey, pref))
      && (forall i :: 0 <= i < |lines| && !IsKeyLine(lines[i], AudioKey) && !IsKeyLine(lines[i], TextKey) ==>
            out[i] == lines[i])
      && out[|lines|..] == MissingKeyLines(lines, pref)
  {
    var out := RewrittenLines(lines, pref);
    forall i | 0 <= i < |lines| && IsKeyLine(lines[i], TextKey)
      ensures out[i] == KeyLine(TextKey, pref)
    {
      KeysExclusive(Trim(lines[i]));
    }
  }

  /** The bytes that replace the whole file. */
  function RewrittenText(text: string, pref: string): string {
    Render(RewrittenLines(Lines(text), pref))
  }

  /** A key line ends in a quote, so `str::lines` gives it back whole. */
  lemma {:induction false} KeyLineEndsInQuote(key: string, pref: string)
    ensures StripCr(KeyLine(key, pref)) == KeyLine(key, pref)
  {
    var l := KeyLine(key, pref);
    assert l[|l| - 1] == '"';
  }

  /**
    Re-reading the rewritten file: the line count grows by exactly the
    number of missing keys; every line that matched a key now reads
    `SET <key> "<pref>"`; every other line is where it was, unchanged but
    for one carriage return `str::lines` drops; the missing keys come last,
    audio before text.
   */
  lemma {:induction false} RewrittenFileLines(text: string, pref: string)
    requires '\n' !in pref
    ensures |Lines(RewrittenText(text, pref))| == |Lines(text)| + |MissingKeyLines(Lines(text), pref)|
    ensures forall i :: 0 <= i < |Lines(text)| && IsKeyLine(Lines(text)[i], AudioKey) ==>
      Lines(RewrittenText(text, pref))[i] == KeyLine(AudioKey, pref)
    ensures forall i :: 0 <= i < |Lines(text)| && IsKeyLine(Lines(text)[i], TextKey) ==>
      Lines(RewrittenText(text, pref))[i] == KeyLine(TextKey, pref)
    ensures forall i :: (0 <= i < |Lines(text)| && !IsKeyLine(Lines(text)[i], AudioKey)
      && !IsKeyLine(Lines(text)[i], TextKey)) ==> Lines(RewrittenText(text, pref))[i] == StripCr(Lines(text)[i])
    ensures Lines(RewrittenText(text, pref))[|Lines(text)|..] == MissingKeyLines(Lines(text), pref)
  {
    var old_ := Lines(text);
    var out := RewrittenLines(old_, pref);
    RewrittenLinesSplit(old_, pref);
    LinesOfJoined(out);
    ReadBackShape(old_, pref, Lines(RewrittenText(text, pref)));
  }

  /** The shape of `StripCrAll(RewrittenLines(lines, pref))`, line by line. */
  lemma {:induction false} ReadBackShape(lines: seq<string>, pref: string, back: seq<string>)
    requires back == StripCrAll(RewrittenLines(lines, pref))
    ensures |back| == |lines| + |MissingKeyLines(lines, pref)|
    ensures forall i :: 0 <= i < |lines| && IsKeyLine(lines[i], AudioKey) ==> back[i] == KeyLine(AudioKey, pref)
    ensures forall i :: 0 <= i < |lines| && IsKeyLine(lines[i], TextKey) ==> back[i] == KeyLine(TextKey, pref)
    ensures forall i :: 0 <= i < |lines| && !IsKeyLine(lines[i], AudioKey) && !IsKeyLine(lines[i], TextKey) ==>
      back[i] == StripCr(lines[i])
    ensures back[|lines|..] == MissingKeyLines(lines, pref)
  {
    ReadBackInPlace(lines, pref, back);
    ReadBackAppended(lines, pref, back);
    KeyLineEndsInQuote(AudioKey, pref);
    KeyLineEndsInQuote(TextKey, pref);
    forall i | 0 <= i < |lines| && IsKeyLine(lines[i], TextKey)
      ensures back[i] == KeyLine(TextKey, pref)
    {
      KeysExclusive(Trim(lines[i]));
    }
  }

  /** The lines read back in place of the old ones are the rewritten old ones. */
  lemma {:induction false} ReadBackInPlace(lines: seq<string>, pref: string, back: seq<string>)
    requires back == StripCrAll(RewrittenLines(lines, pref))
    ensures |back| == |lines| + |MissingKeyLines(lines, pref)|
    ensures forall i :: 0 <= i < |lines| ==> back[i] == StripCr(RewriteLine(lines[i], pref))
  {
    var out := RewrittenLines(lines, pref);
    forall i | 0 <= i < |lines|
      ensures back[i] == StripCr(RewriteLine(lines[i], pref))
    {
      assert back[i] == StripCr(out[i]);
      assert out[i] == RewriteLine(lines[i], pref);
    }
  }

  /** The lines read back after the old ones are the appended key lines. */
  lemma {:induction false} ReadBackAppended(lines: seq<string>, pref: string, back: seq<string>)
    requires back == StripCrAll(RewrittenLines(lines, pref))
    ensures back[|lines|..] == MissingKeyLines(lines, pref)
  {
    var rewritten := seq(|lines|, i requires 0 <= i < |lines| => RewriteLine(lines[i], pref));
    var missing := MissingKeyLines(lines, pref);
    assert RewrittenLines(lines, pref) == rewritten + missing;
    StripCrAllSuffix(rewritten, missing);
    MissingReadBackWhole(lines, pref);
  }

  /** `StripCrAll` works line by line, so it maps a suffix to a suffix. */
  lemma {:induction false} StripCrAllSuffix(a: seq<string>, b: seq<string>)
    ensures StripCrAll(a + b)[|a|..] == StripCrAll(b)
  {
    var r := StripCrAll(a + b);
    forall k | 0 <= k < |b| ensures r[|a|..][k] == StripCrAll(b)[k] {
      assert (a + b)[|a| + k] == b[k];
    }
  }

  /** The appended key lines end in a quote, so `str::lines` gives them back whole. */
  lemma {:induction false} MissingReadBackWhole(lines: seq<string>, pref: string)
    ensures StripCrAll(MissingKeyLines(lines, pref)) == MissingKeyLines(lines, pref)
  {
    var missing := MissingKeyLines(lines, pref);
    MissingAreKeyLines(lines, pref);
    KeyLineEndsInQuote(AudioKey, pref);
    KeyLineEndsInQuote(TextKey, pref);
    forall k | 0 <= k < |missing| ensures StripCrAll(missing)[k] == missing[k] {
      assert StripCr(missing[k]) == missing[k];
    }
  }

  /** Every appended line is one of the two key lines. */
  lemma {:induction false} MissingAreKeyLines(lines: seq<string>, pref: string)
    ensures |MissingKeyLines(lines, pref)| <= 2
    ensures forall k :: 0 <= k < |MissingKeyLines(lines, pref)| ==>
      (MissingKeyLines(lines, pref)[k] == KeyLine(AudioKey, pref)
       || MissingKeyLines(lines, pref)[k] == KeyLine(TextKey, pref))
  {
    var audio := if HasKeyLine(lines, AudioKey) then [] else [KeyLine(AudioKey, pref)];
    var text := if HasKeyLine(lines, TextKey) then [] else [KeyLine(TextKey, pref)];
    assert MissingKeyLines(lines, pref) == audio + text;
  }

  /** Neither key holds a line feed or a quote, and both start with `S`. */
  lemma {:induction false} KeysArePlain()
    ensures '\n' !in AudioKey && '"' !in AudioKey && AudioKey[0] == 'S'
    ensures '\n' !in TextKey && '"' !in TextKey && TextKey[0] == 'S'
  {
  }

  /** A key line holds a line feed only when its key or value does. */
  lemma {:induction false} KeyLineSingle(key: string, pref: string)
    requires '\n' !in key && '\n' !in pref
    ensures '\n' !in KeyLine(key, pref)
  {
    assert KeyLine(key, pref) == key + [' ', '"'] + pref + ['"'];
  }

  /** The rewritten lines are never empty and hold no line feed. */
  lemma {:induction false} RewrittenLinesSplit(lines: seq<string>, pref: string)
    requires forall i :: 0 <= i < |lines| ==> '\n' !in lines[i]
    requires '\n' !in pref
    ensures |RewrittenLines(lines, pref)| > 0
    ensures forall i :: 0 <= i < |RewrittenLines(lines, pref)| ==> '\n' !in RewrittenLines(lines, pref)[i]
  {
    var out := RewrittenLines(lines, pref);
    var missing := MissingKeyLines(lines, pref);
    KeysArePlain();
    KeyLineSingle(AudioKey, pref);
    KeyLineSingle(TextKey, pref);
    forall i | 0 <= i < |out| ensures '\n' !in out[i] {
      if i < |lines| {
        assert out[i] == RewriteLine(lines[i], pref);
      } else {
        assert out[i] in missing;
      }
    }
    if !HasKeyLine(lines, AudioKey) {
      assert out[|lines|] == KeyLine(AudioKey, pref);
    } else {
      var i :| 0 <= i < |lines| && IsKeyLine(lines[i], AudioKey);
      assert out[i] == KeyLine(AudioKey, pref);
    }
  }

  // ---------------------------------------------------------------- round trip

  /** A key line is its own trim and starts with its key. */
  lemma {:induction false} KeyLineMatches(key: string, v: string)
    requires key != [] && key[0] == 'S'
    ensures Trim(KeyLine(key, v)) == KeyLine(key, v)
    ensures StartsWith(KeyLine(key, v), key)
  {
    var l := KeyLine(key, v);
    assert l[0] == 'S' && l[|l| - 1] == '"';
    TrimOfSolid(l);
    assert l[..|key|] == key;
  }

  /** A key line quotes its value. */
  lemma {:induction false} KeyLineParts(key: string, pref: string)
    requires '"' !in key && '"' !in pref
    ensures QuotedValue(KeyLine(key, pref)) == Some(pref)
  {
    assert KeyLine(key, pref) == (key + " ") + ['"'] + pref + ['"'] + [];
    QuotedValueOf(key + " ", pref, []);
  }

  /** A written audio line reads back as `pref` for audio and as nothing for text. */
  lemma {:induction false} AudioLineReadsBack(pref: string)
    requires '"' !in pref
    ensures KeyValue(KeyLine(AudioKey, pref), AudioKey) == Some(pref)
    ensures KeyValue(KeyLine(AudioKey, pref), TextKey) == None
  {
    KeysArePlain();
    KeyLineMatches(AudioKey, pref);
    KeyLineParts(AudioKey, pref);
    KeysExclusive(KeyLine(AudioKey, pref));
  }

  /** A written text line reads back as `pref` for text and as nothing for audio. */
  lemma {:induction false} TextLineReadsBack(pref: string)
    requires '"' !in pref
    ensures KeyValue(KeyLine(TextKey, pref), TextKey) == Some(pref)
    ensures KeyValue(KeyLine(TextKey, pref), AudioKey) == None
  {
    KeysArePlain();
    KeyLineMatches(TextKey, pref);
    KeyLineParts(TextKey, pref);
    KeysExclusive(KeyLine(TextKey, pref));
  }

  /** The line gives `key` no value or the value `v`. */
  predicate GivesAtMost(line: string, key: string, v: string) {
    KeyValue(line, key).None? || KeyValue(line, key) == Some(v)
  }

  /** A rewritten line gives `key` either nothing or `pref`, and `pref` when it was a `key` line. */
  lemma {:induction false} RewrittenLineValue(line: string, pref: string, key: string)
    requires '"' !in pref
    requires key == AudioKey || key == TextKey
    ensures GivesAtMost(StripCr(RewriteLine(line, pref)), key, pref)
    ensures IsKeyLine(line, key) ==> KeyValue(StripCr(RewriteLine(line, pref)), key) == Some(pref)
  {
    var out := RewriteLine(line, pref);
    TrimIgnoresCr(out);
    KeysExclusive(Trim(line));
    if IsKeyLine(line, AudioKey) {
      AudioLineReadsBack(pref);
    } else if IsKeyLine(line, TextKey) {
      TextLineReadsBack(pref);
    }
  }

  /** Only one value is left in the rewritten lines, for either key: `pref`. */
  lemma {:induction false} RewrittenValues(lines: seq<string>, pref: string, key: string)
    requires '"' !in pref
    requires key == AudioKey || key == TextKey
    ensures forall j :: 0 <= j < |RewrittenLines(lines, pref)| ==>
      GivesAtMost(StripCr(RewrittenLines(lines, pref)[j]), key, pref)
    ensures exists j ::
      && 0 <= j < |RewrittenLines(lines, pref)|
      && KeyValue(StripCr(RewrittenLines(lines, pref)[j]), key) == Some(pref)
  {
    RewrittenGiveAtMost(lines, pref, key);
    RewrittenGivePref(lines, pref, key);
  }

  /** No rewritten line gives `key` a value other than `pref`. */
  lemma {:induction false} RewrittenGiveAtMost(lines: seq<string>, pref: string, key: string)
    requires '"' !in pref
    requires key == AudioKey || key == TextKey
    ensures forall j :: 0 <= j < |RewrittenLines(lines, pref)| ==>
      GivesAtMost(StripCr(RewrittenLines(lines, pref)[j]), key, pref)
  {
    var out := RewrittenLines(lines, pref);
    var missing := MissingKeyLines(lines, pref);
    MissingAreKeyLines(lines, pref);
    AudioLineReadsBack(pref);
    TextLineReadsBack(pref);
    KeyLineEndsInQuote(AudioKey, pref);
    KeyLineEndsInQuote(TextKey, pref);
    forall j | 0 <= j < |out|
      ensures GivesAtMost(StripCr(out[j]), key, pref)
    {
      if j < |lines| {
        assert out[j] == RewriteLine(lines[j], pref);
        RewrittenLineValue(lines[j], pref, key);
      } else {
        assert out[j] == missing[j - |lines|];
      }
    }
  }

  /** Some rewritten line gives `key` the value `pref`: a rewritten key line or an appended one. */
  lemma {:induction false} RewrittenGivePref(lines: seq<string>, pref: string, key: string)
    requires '"' !in pref
    requires key == AudioKey || key == TextKey
    ensures exists j ::
      && 0 <= j < |RewrittenLines(lines, pref)|
      && KeyValue(StripCr(RewrittenLines(lines, pref)[j]), key) == Some(pref)
  {
    if HasKeyLine(lines, key) {
      RewrittenKeyLineGivesPref(lines, pref, key);
    } else {
      AppendedKeyLineGivesPref(lines, pref, key);
    }
  }

  /** A `key` line, rewritten, gives `key` the value `pref`. */
  lemma {:induction false} RewrittenKeyLineGivesPref(lines: seq<string>, pref: string, key: string)
    requires '"' !in pref
    requires key == AudioKey || key == TextKey
    requires HasKeyLine(lines, key)
    ensures exists j ::
      && 0 <= j < |RewrittenLines(lines, pref)|
      && KeyValue(StripCr(RewrittenLines(lines, pref)[j]), key) == Some(pref)
  {
    var out := RewrittenLines(lines, pref);
    var j :| 0 <= j < |lines| && IsKeyLine(lines[j], key);
    RewrittenLineValue(lines[j], pref, key);
    assert out[j] == RewriteLine(lines[j], pref);
  }

  /** An appended `key` line gives `key` the value `pref`. */
  lemma {:induction false} AppendedKeyLineGivesPref(lines: seq<string>, pref: string, key: string)
    requires '"' !in pref
    requires key == AudioKey || key == TextKey
    requires !HasKeyLine(lines, key)
    ensures exists j ::
      && 0 <= j < |RewrittenLines(lines, pref)|
      && KeyValue(StripCr(RewrittenLines(lines, pref)[j]), key) == Some(pref)
  {
    var out := RewrittenLines(lines, pref);
    var k := MissingKeyLineAt(lines, pref, key);
    assert out[|lines| + k] == KeyLine(key, pref);
    KeyLineEndsInQuote(key, pref);
    if key == AudioKey {
      AudioLineReadsBack(pref);
    } else {
      TextLineReadsBack(pref);
    }
    assert KeyValue(StripCr(out[|lines| + k]), key) == Some(pref);
  }

  /** A key no line has is appended: the index of its line among the appended ones. */
  lemma {:induction false} MissingKeyLineAt(lines: seq<string>, pref: string, key: string) returns (k: nat)
    requires key == AudioKey || key == TextKey
    requires !HasKeyLine(lines, key)
    ensures k < |MissingKeyLines(lines, pref)| && MissingKeyLines(lines, pref)[k] == KeyLine(key, pref)
  {
    var missing := MissingKeyLines(lines, pref);
    if key == AudioKey {
      k := 0;
    } else if HasKeyLine(lines, AudioKey) {
      k := 0;
    } else {
      k := 1;
    }
  }

  /** When every line gives `key` either nothing or `v`, and one gives `v`, the last value is `v`. */
  lemma {:induction false} OnlyValueIsLast(lines: seq<string>, key: string, v: string)
    requires forall j :: 0 <= j < |lines| ==> GivesAtMost(lines[j], key, v)
    requires exists j :: 0 <= j < |lines| && KeyValue(lines[j], key) == Some(v)
    ensures LastKeyLine(lines, key).Some? && LastKeyValue(lines, key) == Some(v)
  {
    var j :| 0 <= j < |lines| && KeyValue(lines[j], key) == Some(v);
    var last := LastKeyLine(lines, key);
    assert last.Some?;
    assert GivesAtMost(lines[last.value], key, v);
  }

  /** Reading the rewritten lines back gives `key` the value `pref`. */
  lemma {:induction false} ReadBackValue(lines: seq<string>, pref: string, key: string, back: seq<string>)
    requires '"' !in pref
    requires key == AudioKey || key == TextKey
    requires back == StripCrAll(RewrittenLines(lines, pref))
    ensures LastKeyLine(back, key).Some? && LastKeyValue(back, key) == Some(pref)
  {
    RewrittenValues(lines, pref, key);
    var out := RewrittenLines(lines, pref);
    assert forall j :: 0 <= j < |back| ==> back[j] == StripCr(out[j]);
    OnlyValueIsLast(back, key, pref);
  }

  /**
    The round trip of an update: for a preferred locale with no quote and no
    line feed, parsing the rewritten text gives that locale for both keys,
    whatever the file held before.
   */
  lemma {:induction false} RewriteThenParse(text: string, pref: string)
    requires '"' !in pref && '\n' !in pref
    ensures Parse(RewrittenText(text, pref)) == Locales(Some(pref), Some(pref))
  {
    var out := RewrittenLines(Lines(text), pref);
    RewrittenLinesSplit(Lines(text), pref);
    LinesOfJoined(out);
    var back := StripCrAll(out);
    assert Lines(RewrittenText(text, pref)) == back;
    ReadBackValue(Lines(text), pref, AudioKey, back);
    ReadBackValue(Lines(text), pref, TextKey, back);
    ScanFindsLastValue(NoLocales, back);
  }

  // ---------------------------------------------------------------- updating the file

  /** Why `update_config_file_locales` refuses or fails. */
  datatype UpdateError =
    | NotConfigured
    | NotFound
    | TooLarge
    | ReadFailed
    | WriteFailed(cause: string)

  /** The `Err` text of each failure (src/main.rs:226, 230, 234, 236, 258). */
  function ErrorMessage(e: UpdateError): string {
    match e
    case NotConfigured => "Config.wtf path is not set"
    case NotFound => "Config.wtf path does not exist or is not a file"
    case TooLarge => "Config.wtf file is too large to safely edit"
    case ReadFailed => "stream did not contain valid UTF-8"
    case WriteFailed(cause) => cause
  }

  /**
    The file system after `update_config_file_locales` (src/main.rs:223-258):
    the guards in their order, then the whole file replaced by the rewritten
    text. `writeFailure` is the error `fs::write` returns, if it fails.
   */
  function UpdateConfig(fs: FileSystem, path: string, pref: string, writeFailure: Option<string>)
    : (r: Result<FileSystem, UpdateError>)
    ensures path == "" ==> r == Failure(NotConfigured)
    ensures path != "" && !IsFile(fs, path) ==> r == Failure(NotFound)
    ensures IsFile(fs, path) && Size(fs[path]) >= MaxConfigSize ==> r == Failure(TooLarge)
    ensures IsFile(fs, path) && Size(fs[path]) < MaxConfigSize && fs[path].BinaryFile? ==> r == Failure(ReadFailed)
    ensures IsFile(fs, path) && Size(fs[path]) < MaxConfigSize && fs[path].TextFile? && writeFailure.Some? ==>
      r == Failure(WriteFailed(writeFailure.value))
    ensures IsFile(fs, path) && Size(fs[path]) < MaxConfigSize && fs[path].TextFile? && writeFailure.None? ==>
      r.Success?
    ensures r.Success? ==> IsFile(fs, path) && Size(fs[path]) < MaxConfigSize && fs[path].TextFile?
    ensures r.Success? ==> r.value.Keys == fs.Keys
    ensures r.Success? ==> forall p :: p in fs && p != path ==> r.value[p] == fs[p]
    ensures r.Success? ==> r.value[path] == TextFile(RewrittenText(fs[path].contents, pref))
  {
    if path == "" then Failure(NotConfigured)
    else if !IsFile(fs, path) then Failure(NotFound)
    else if Size(fs[path]) >= MaxConfigSize then Failure(TooLarge)
    else match ReadToString(fs[path])
      case None => Failure(ReadFailed)
      case Some(text) =>
        match writeFailure
        case Some(cause) => Failure(WriteFailed(cause))
        case None => Success(fs[path := TextFile(RewrittenText(text, pref))])
  }

  /**
    After a successful update the re-parse finds the preferred locale under
    both keys, unless the rewritten file reached the size guard, in which
    case both values are the sentinel.
   */
  lemma {:induction false} UpdateThenRefresh(fs: FileSystem, path: string, pref: string, writeFailure: Option<string>)
    requires UpdateConfig(fs, path, pref, writeFailure).Success?
    requires '"' !in pref && '\n' !in pref
    ensures var fs' := UpdateConfig(fs, path, pref, writeFailure).value;
      Refresh(fs', path) ==
        if Size(fs'[path]) < MaxConfigSize then Locales(Some(pref), Some(pref))
        else Locales(Some(TooLargeSentinel), Some(TooLargeSentinel))
  {
    RewriteThenParse(fs[path].contents, pref);
  }

  /**
    A file holding just the two key lines, with any old values, is rewritten
    to the same two lines carrying `pref`, and nothing else.
   */
  lemma {:induction false} TwoKeyLinesRewrite(audio: string, text: string, pref: string)
    requires '\n' !in audio && '\n' !in text
    ensures RewrittenText(KeyLine(AudioKey, audio) + "\n" + KeyLine(TextKey, text) + "\n", pref)
      == KeyLine(AudioKey, pref) + "\n" + KeyLine(TextKey, pref) + "\n"
  {
    var a := KeyLine(AudioKey, audio);
    var t := KeyLine(TextKey, text);
    KeysArePlain();
    KeyLineSingle(AudioKey, audio);
    KeyLineSingle(TextKey, text);
    KeyLineEndsInQuote(AudioKey, audio);
    KeyLineEndsInQuote(TextKey, text);
    TwoLinesRead(a, t);
    TwoKeyLinesRewritten(audio, text, pref);
    var out := [KeyLine(AudioKey, pref), KeyLine(TextKey, pref)];
    assert Join(out[1..]) == out[1];
  }

  /** A text of two newline-terminated lines with no carriage return at their ends splits into those two. */
  lemma {:induction false} TwoLinesRead(a: string, t: string)
    requires '\n' !in a && '\n' !in t
    requires StripCr(a) == a && StripCr(t) == t
    ensures Lines(a + "\n" + t + "\n") == [a, t]
  {
    var lines := [a, t];
    LinesOfJoined(lines);
    assert Join(lines[1..]) == t;
    assert Join(lines) + "\n" == a + "\n" + t + "\n";
  }

  /** Both key lines are rewritten to carry `pref`, and none is appended. */
  lemma {:induction false} TwoKeyLinesRewritten(audio: string, text: string, pref: string)
    ensures RewrittenLines([KeyLine(AudioKey, audio), KeyLine(TextKey, text)], pref)
      == [KeyLine(AudioKey, pref), KeyLine(TextKey, pref)]
  {
    var a := KeyLine(AudioKey, audio);
    var t := KeyLine(TextKey, text);
    var lines := [a, t];
    KeysArePlain();
    KeyLineMatches(AudioKey, audio);
    KeyLineMatches(TextKey, text);
    KeysExclusive(t);
    assert IsKeyLine(lines[0], AudioKey) && IsKeyLine(lines[1], TextKey);
    assert HasKeyLine(lines, AudioKey) && HasKeyLine(lines, TextKey);
    assert MissingKeyLines(lines, pref) == [];
  }
}
