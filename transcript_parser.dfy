/**
 * The per-line parser of `generate_audio` in app.py: a line of the generated
 * transcript is stripped, skipped when it is blank or a bold stage direction,
 * and otherwise matched first against the bold-speaker pattern
 * `^\*\*(.*?)\*\*:\s*(.*)` and only then against the plain pattern
 * `^(.*?)[<delimiters>]\s*(.*)`.
 */
module TranscriptParser {
  import opened Results
  import opened PyStr

  /** One spoken line of the dialogue. */
  datatype Utterance = Utterance(speaker: string, text: string)

  /** What the parser makes of one transcript line. */
  datatype LineResult = Skipped | Matched(speaker: string, text: string) | Unmatched

  /** The two capture groups of a successful regular-expression match, before stripping. */
  datatype Groups = Groups(group1: string, group2: string)

  /** The delimiter class of the plain pattern as it was evidently meant: the
      ASCII colon and the full-width colon U+FF1A. */
  const Delimiters: set<char> := {':', '\U{FF1A}'}

  /** The delimiter class as the source file spells it: the UTF-8 bytes of
      U+FF1A read as Windows-1252 text, giving the three characters
      U+00EF, U+00BC and U+0161 beside the colon. */
  const WrittenDelimiters: set<char> := {':', '\U{EF}', '\U{BC}', '\U{161}'}

  /** A line as `split('\n')` yields it. The regular expressions' `.` stops at
      a newline; on such lines it matches every character. */
  predicate IsLine(s: string) {
    '\n' !in s
  }

  /** After stripping, a blank line or one opening with `**(` is never parsed. */
  predicate IsSkippedLine(line: string) {
    line == [] || StartsWith(line, "**(")
  }

  /** `re.match(r'^\*\*(.*?)\*\*:\s*(.*)', line)`: the lazy group ends at the
      first `**:` after the opening `**`; `\s*` then takes all whitespace. */
  function MatchBold(line: string): (m: Option<Groups>)
    requires IsLine(line)
    ensures m.None? <==>
      !StartsWith(line, "**") || forall j: nat :: 2 <= j ==> !OccursAt(line, "**:", j)
    ensures m.Some? ==> ':' in line
  {
    if !StartsWith(line, "**") then None
    else
      match FindFrom(line, "**:", 2)
      case None => None
      case Some(j) =>
        assert line[j + 2] == "**:"[2];
        Some(Groups(line[2..j], LStrip(line[j + 3..])))
  }

  /** `re.match(r'^(.*?)[<delims>]\s*(.*)', line)`: the lazy group ends at the
      first delimiter character. */
  function MatchPlain(line: string, delims: set<char>): (m: Option<Groups>)
    requires IsLine(line)
    ensures m.None? <==> forall i :: 0 <= i < |line| ==> line[i] !in delims
  {
    match FirstIn(line, delims)
    case None => None
    case Some(i) => Some(Groups(line[..i], LStrip(line[i + 1..])))
  }

  /** The two patterns in their order: the plain one is tried only when the
      bold one fails. */
  function MatchLine(line: string, delims: set<char>): (m: Option<Groups>)
    requires IsLine(line) && ':' in delims
    ensures m.None? <==> forall i :: 0 <= i < |line| ==> line[i] !in delims
  {
    var bold := MatchBold(line);
    if bold.Some? then bold else MatchPlain(line, delims)
  }

  /** What becomes of a line once it is stripped. */
  function ParseStripped(line: string, delims: set<char>): (r: LineResult)
    requires IsLine(line) && ':' in delims
    ensures r.Skipped? <==> IsSkippedLine(line)
    ensures r.Unmatched? <==> !IsSkippedLine(line) && forall i :: 0 <= i < |line| ==> line[i] !in delims
    ensures r.Matched? ==> IsStripped(r.speaker) && IsStripped(r.text)
  {
    if IsSkippedLine(line) then Skipped
    else
      match MatchLine(line, delims)
      case Some(g) => Matched(Strip(g.group1), Strip(g.group2))
      case None => Unmatched
  }

  /** The body of the loop in `generate_audio` up to the voice lookup, for a
      given delimiter class of the plain pattern. */
  function ParseLineWith(rawLine: string, delims: set<char>): (r: LineResult)
    requires IsLine(rawLine) && ':' in delims
    ensures r.Skipped? <==> IsSkippedLine(Strip(rawLine))
    ensures r.Unmatched? <==>
      !IsSkippedLine(Strip(rawLine)) && forall i :: 0 <= i < |Strip(rawLine)| ==> Strip(rawLine)[i] !in delims
    ensures r.Matched? ==> IsStripped(r.speaker) && IsStripped(r.text)
  {
    ParseStripped(Strip(rawLine), delims)
  }

  /** The parser with the delimiter class read as intended. */
  function ParseLine(rawLine: string): (r: LineResult)
    requires IsLine(rawLine)
    ensures r.Skipped? <==> IsSkippedLine(Strip(rawLine))
    ensures r.Unmatched? <==>
      !IsSkippedLine(Strip(rawLine)) && forall i :: 0 <= i < |Strip(rawLine)| ==> Strip(rawLine)[i] !in Delimiters
    ensures r.Matched? ==> IsStripped(r.speaker) && IsStripped(r.text)
  {
    ParseLineWith(rawLine, Delimiters)
  }

  /** The parser with the delimiter class exactly as the source file spells it. */
  function ParseLineAsWritten(rawLine: string): (r: LineResult)
    requires IsLine(rawLine)
    ensures r.Skipped? <==> IsSkippedLine(Strip(rawLine))
    ensures r.Unmatched? <==>
      !IsSkippedLine(Strip(rawLine)) && forall i :: 0 <= i < |Strip(rawLine)| ==> Strip(rawLine)[i] !in WrittenDelimiters
  {
    ParseLineWith(rawLine, WrittenDelimiters)
  }

  /** The bold pattern on a line whose first `**:` after the opening `**`
      is at `j`. */
  lemma BoldMatchAt(line: string, j: nat)
    requires IsLine(line) && StartsWith(line, "**")
    requires 2 <= j && OccursAt(line, "**:", j)
    requires forall k: nat :: 2 <= k < j ==> !OccursAt(line, "**:", k)
    ensures MatchBold(line) == Some(Groups(line[2..j], LStrip(line[j + 3..])))
  {
    var found := FindFrom(line, "**:", 2);
    assert found.Some? by {
      assert OccursAt(line, "**:", j);
    }
    assert OccursAt(line, "**:", found.value);
  }

  /** The plain pattern on a line whose first delimiter is at `i`. */
  lemma PlainMatchAt(line: string, delims: set<char>, i: nat)
    requires IsLine(line)
    requires i < |line| && line[i] in delims
    requires forall k :: 0 <= k < i ==> line[k] !in delims
    ensures MatchPlain(line, delims) == Some(Groups(line[..i], LStrip(line[i + 1..])))
  {
    var found := FirstIn(line, delims);
    assert found.Some? by {
      assert line[i] in delims;
    }
    assert line[found.value] in delims;
  }

  /** A stripped bold-speaker line: the speaker is what lies between the
      opening `**` and the first later `**:`, the text everything after it,
      both stripped; the plain pattern is not consulted. */
  lemma BoldLineParse(line: string, delims: set<char>, j: nat)
    requires IsLine(line) && ':' in delims
    requires !IsSkippedLine(line)
    requires StartsWith(line, "**")
    requires 2 <= j && OccursAt(line, "**:", j)
    requires forall k: nat :: 2 <= k < j ==> !OccursAt(line, "**:", k)
    ensures ParseStripped(line, delims) == Matched(Strip(line[2..j]), Strip(line[j + 3..]))
  {
    BoldMatchAt(line, j);
    StripLStrip(line[j + 3..]);
  }

  /** A stripped line the bold pattern does not match: the speaker is what
      precedes the first delimiter, the text what follows it, both stripped. */
  lemma PlainLineParse(line: string, delims: set<char>, i: nat)
    requires IsLine(line) && ':' in delims
    requires !IsSkippedLine(line)
    requires !StartsWith(line, "**") || forall j: nat :: 2 <= j ==> !OccursAt(line, "**:", j)
    requires i < |line| && line[i] in delims
    requires forall k :: 0 <= k < i ==> line[k] !in delims
    ensures ParseStripped(line, delims) == Matched(Strip(line[..i]), Strip(line[i + 1..]))
  {
    PlainMatchAt(line, delims, i);
    StripLStrip(line[i + 1..]);
  }

  /** `strip` leaves a string that is already stripped as it is. */
  lemma StrippedIsFixed(s: string)
    requires IsStripped(s)
    ensures Strip(s) == s
  {
    StripUnique([], s, []);
    assert [] + s + [] == s;
  }

  /** `strip` of a stripped text behind one blank is that text. */
  lemma StripBlankThen(t: string)
    requires IsStripped(t)
    ensures Strip(" " + t) == t
  {
    StripUnique(" ", t, []);
    assert " " + t + [] == " " + t;
  }

  /** An utterance written in the bold form `**S**: T`. */
  function BoldLine(u: Utterance): string {
    "**" + u.speaker + "**: " + u.text
  }

  /** An utterance written in the form `S: T` that the generation prompt asks for. */
  function PlainLine(u: Utterance): string {
    u.speaker + ": " + u.text
  }

  /** Speaker and text that survive the parser unchanged: no newline, no
      surrounding whitespace. */
  predicate IsCleanUtterance(u: Utterance) {
    IsLine(u.speaker) && IsLine(u.text) && IsStripped(u.speaker) && IsStripped(u.text)
  }

  /** The stripped form of a line `core + " " + text`. */
  lemma StripCoreThenText(core: string, t: string)
    requires core != [] && !IsSpace(core[0]) && !IsSpace(core[|core| - 1])
    requires IsStripped(t)
    ensures Strip(core + " " + t) == core + TextAfterDelimiter(t)
  {
    if t == [] {
      StripCoreBlank(core);
      assert core + " " + t == core + " ";
    } else {
      StripCoreBlankText(core, t);
    }
  }

  /** A stripped core followed by a lone blank strips to the core. */
  lemma StripCoreBlank(core: string)
    requires IsStripped(core)
    ensures Strip(core + " ") == core
  {
    StripUnique([], core, " ");
    assert [] + core + " " == core + " ";
  }

  /** A stripped core, a blank and a non-empty stripped text: nothing to strip. */
  lemma StripCoreBlankText(core: string, t: string)
    requires core != [] && !IsSpace(core[0])
    requires t != [] && IsStripped(t)
    ensures Strip(core + " " + t) == core + " " + t
  {
    var s := core + " " + t;
    assert s[0] == core[0] && s[|s| - 1] == t[|t| - 1];
    StrippedIsFixed(s);
  }

  /** What follows the delimiter in the stripped form of a formatted line. */
  function TextAfterDelimiter(t: string): string {
    if t == [] then [] else " " + t
  }

  /** The stripped bold form of an utterance: no blank is left behind an empty text. */
  function BoldCore(u: Utterance): string {
    "**" + u.speaker + ("**:" + TextAfterDelimiter(u.text))
  }

  /** The stripped plain form of an utterance. */
  function PlainCore(u: Utterance): string {
    u.speaker + ":" + TextAfterDelimiter(u.text)
  }

  lemma StripBoldLine(u: Utterance)
    requires IsCleanUtterance(u)
    ensures Strip(BoldLine(u)) == BoldCore(u)
  {
    var core := "**" + u.speaker + "**:";
    assert BoldLine(u) == core + " " + u.text;
    assert BoldCore(u) == core + TextAfterDelimiter(u.text);
    assert core[0] == '*' && core[|core| - 1] == ':';
    StripCoreThenText(core, u.text);
  }

  lemma StripPlainLine(u: Utterance)
    requires IsCleanUtterance(u)
    ensures Strip(PlainLine(u)) == PlainCore(u)
  {
    var core := u.speaker + ":";
    assert PlainLine(u) == core + " " + u.text;
    StripCoreThenText(core, u.text);
  }

  /** The three parts of a concatenation of three strings. */
  lemma Parts(a: string, b: string, c: string)
    ensures |a + b + c| == |a| + |b| + |c|
    ensures (a + b + c)[..|a|] == a
    ensures (a + b + c)[|a|..|a| + |b|] == b
    ensures (a + b + c)[|a| + |b|..] == c
  {
  }

  /** Where the pieces of the stripped bold form lie. */
  lemma BoldCoreShape(u: Utterance)
    requires IsLine(u.speaker) && IsLine(u.text)
    requires '*' !in u.speaker
    requires !StartsWith(u.speaker, "(")
    ensures IsLine(BoldCore(u)) && !IsSkippedLine(BoldCore(u)) && StartsWith(BoldCore(u), "**")
    ensures OccursAt(BoldCore(u), "**:", |u.speaker| + 2)
    ensures forall k: nat :: 2 <= k < |u.speaker| + 2 ==> !OccursAt(BoldCore(u), "**:", k)
    ensures BoldCore(u)[2..|u.speaker| + 2] == u.speaker
    ensures BoldCore(u)[|u.speaker| + 5..] == TextAfterDelimiter(u.text)
  {
    var line, n := BoldCore(u), |u.speaker|;
    var tail := "**:" + TextAfterDelimiter(u.text);
    Parts("**", u.speaker, tail);
    assert line[n + 2..] == tail;
    assert line[n + 2..n + 5] == tail[..3] == "**:";
    assert line[n + 5..] == tail[3..];
    assert line[2] == if n > 0 then u.speaker[0] else '*';
    forall k: nat | 2 <= k < n + 2
      ensures !OccursAt(line, "**:", k)
    {
      assert line[k] == line[2..n + 2][k - 2];
    }
  }

  /** Where the pieces of the stripped plain form lie. */
  lemma PlainCoreShape(u: Utterance)
    requires IsLine(u.speaker) && IsLine(u.text)
    requires !StartsWith(u.speaker, "**")
    ensures IsLine(PlainCore(u)) && !IsSkippedLine(PlainCore(u)) && !StartsWith(PlainCore(u), "**")
    ensures |u.speaker| < |PlainCore(u)| && PlainCore(u)[|u.speaker|] == ':'
    ensures PlainCore(u)[..|u.speaker|] == u.speaker
    ensures forall k :: 0 <= k < |u.speaker| ==> PlainCore(u)[k] == u.speaker[k]
    ensures PlainCore(u)[|u.speaker| + 1..] == TextAfterDelimiter(u.text)
  {
    var line, n := PlainCore(u), |u.speaker|;
    Parts(u.speaker, ":", TextAfterDelimiter(u.text));
    assert line[n] == line[n..n + 1][0];
    if n >= 2 {
      assert line[..2] == line[..n][..2];
    } else if n == 1 {
      assert line[1] == ':';
    }
  }

  /** What follows the delimiter in a formatted line strips back to the text. */
  lemma StripRest(t: string)
    requires IsStripped(t)
    ensures Strip(TextAfterDelimiter(t)) == t
  {
    if t == [] {
      StrippedIsFixed([]);
    } else {
      StripBlankThen(t);
    }
  }

  /** The stripped bold form parses to the utterance it was made from. */
  lemma BoldCoreParses(u: Utterance, delims: set<char>)
    requires IsCleanUtterance(u) && ':' in delims
    requires '*' !in u.speaker
    requires !StartsWith(u.speaker, "(")
    ensures ParseStripped(BoldCore(u), delims) == Matched(u.speaker, u.text)
  {
    BoldCoreShape(u);
    BoldLineParse(BoldCore(u), delims, |u.speaker| + 2);
    StrippedIsFixed(u.speaker);
    StripRest(u.text);
  }

  /** The stripped plain form parses to the utterance it was made from. */
  lemma PlainCoreParses(u: Utterance, delims: set<char>)
    requires IsCleanUtterance(u) && ':' in delims
    requires forall i :: 0 <= i < |u.speaker| ==> u.speaker[i] !in delims
    requires !StartsWith(u.speaker, "**")
    ensures ParseStripped(PlainCore(u), delims) == Matched(u.speaker, u.text)
  {
    PlainCoreShape(u);
    PlainLineParse(PlainCore(u), delims, |u.speaker|);
    StrippedIsFixed(u.speaker);
    StripRest(u.text);
  }

  /** Any clean utterance whose speaker has no `*` and does not open with `(`
      reads back from its bold form, whatever delimiters the speaker holds:
      `**A:B**: hi` is spoken by `A:B`, not by `**A`. */
  lemma BoldLineRoundTrip(u: Utterance, delims: set<char>)
    requires IsCleanUtterance(u) && ':' in delims
    requires '*' !in u.speaker
    requires !StartsWith(u.speaker, "(")
    ensures ParseLineWith(BoldLine(u), delims) == Matched(u.speaker, u.text)
  {
    StripBoldLine(u);
    BoldCoreParses(u, delims);
  }

  /** Any clean utterance whose speaker holds no delimiter and does not open
      with `**` reads back from its plain form `S: T`. */
  lemma PlainLineRoundTrip(u: Utterance, delims: set<char>)
    requires IsCleanUtterance(u) && ':' in delims
    requires forall i :: 0 <= i < |u.speaker| ==> u.speaker[i] !in delims
    requires !StartsWith(u.speaker, "**")
    ensures ParseLineWith(PlainLine(u), delims) == Matched(u.speaker, u.text)
  {
    StripPlainLine(u);
    PlainCoreParses(u, delims);
  }

  /** The round trips for the parser as it is used: the intended delimiters. */
  lemma FormattedLinesParse(u: Utterance)
    requires IsCleanUtterance(u)
    ensures '*' !in u.speaker && !StartsWith(u.speaker, "(") ==>
      ParseLine(BoldLine(u)) == Matched(u.speaker, u.text)
    ensures (forall i :: 0 <= i < |u.speaker| ==> u.speaker[i] !in Delimiters) && !StartsWith(u.speaker, "**") ==>
      ParseLine(PlainLine(u)) == Matched(u.speaker, u.text)
  {
    if '*' !in u.speaker && !StartsWith(u.speaker, "(") {
      BoldLineRoundTrip(u, Delimiters);
    }
    if (forall i :: 0 <= i < |u.speaker| ==> u.speaker[i] !in Delimiters) && !StartsWith(u.speaker, "**") {
      PlainLineRoundTrip(u, Delimiters);
    }
  }

  /** The as-written parse of the stripped plain form, cut at a U+00EF. */
  lemma PlainCoreCutAt(u: Utterance, k: nat)
    requires IsLine(u.speaker) && IsLine(u.text)
    requires !StartsWith(u.speaker, "**")
    requires k < |u.speaker| && u.speaker[k] == '\U{EF}'
    requires forall i :: 0 <= i < k ==> u.speaker[i] !in WrittenDelimiters
    ensures ParseStripped(PlainCore(u), WrittenDelimiters)
      == Matched(Strip(u.speaker[..k]), Strip(PlainCore(u)[k + 1..]))
  {
    PlainCoreShape(u);
    var line := PlainCore(u);
    assert line[..k] == u.speaker[..k];
    PlainLineParse(line, WrittenDelimiters, k);
  }

  /** As written, a U+00EF in a speaker label ends the label there, while the
      intended class reads the whole label. */
  lemma AsWrittenCutsSpeakerAtDiaeresis(u: Utterance, k: nat)
    requires IsCleanUtterance(u)
    requires forall i :: 0 <= i < |u.speaker| ==> u.speaker[i] !in Delimiters
    requires !StartsWith(u.speaker, "**")
    requires k < |u.speaker| && u.speaker[k] == '\U{EF}'
    requires forall i :: 0 <= i < k ==> u.speaker[i] !in WrittenDelimiters
    ensures ParseLine(PlainLine(u)) == Matched(u.speaker, u.text)
    ensures ParseLineAsWritten(PlainLine(u)).Matched?
    ensures ParseLineAsWritten(PlainLine(u)).speaker == Strip(u.speaker[..k])
    ensures |ParseLineAsWritten(PlainLine(u)).speaker| < |u.speaker|
  {
    PlainLineRoundTrip(u, Delimiters);
    StripPlainLine(u);
    PlainCoreCutAt(u, k);
  }

  /** Where the pieces of a line with a full-width colon lie. */
  lemma FullWidthLineShape(speaker: string, text: string)
    requires IsStripped(speaker) && IsStripped(text)
    requires !StartsWith(speaker, "**")
    ensures |speaker + "\U{FF1A}" + text| == |speaker| + 1 + |text|
    ensures IsStripped(speaker + "\U{FF1A}" + text)
    ensures !StartsWith(speaker + "\U{FF1A}" + text, "**")
    ensures forall i :: 0 <= i < |speaker| ==> (speaker + "\U{FF1A}" + text)[i] == speaker[i]
    ensures (speaker + "\U{FF1A}" + text)[|speaker|] == '\U{FF1A}'
    ensures forall i :: |speaker| < i < |speaker| + 1 + |text| ==>
      (speaker + "\U{FF1A}" + text)[i] == text[i - |speaker| - 1]
    ensures (speaker + "\U{FF1A}" + text)[..|speaker|] == speaker
    ensures (speaker + "\U{FF1A}" + text)[|speaker| + 1..] == text
  {
    var n := |speaker|;
    var line := speaker + "\U{FF1A}" + text;
    Parts(speaker, "\U{FF1A}", text);
    if n >= 2 {
      assert line[..2] == speaker[..2];
    } else if n == 1 {
      assert line[1] == '\U{FF1A}';
    } else {
      assert line[0] == '\U{FF1A}';
    }
  }

  /** With no written delimiter in speaker or text, none is in the line. */
  lemma FullWidthLineHasNoWrittenDelimiter(speaker: string, text: string)
    requires forall i :: 0 <= i < |speaker| ==> speaker[i] !in WrittenDelimiters
    requires forall i :: 0 <= i < |text| ==> text[i] !in WrittenDelimiters
    ensures forall i :: 0 <= i < |speaker + "\U{FF1A}" + text| ==>
      (speaker + "\U{FF1A}" + text)[i] !in WrittenDelimiters
  {
    var line := speaker + "\U{FF1A}" + text;
    forall i | 0 <= i < |line|
      ensures line[i] !in WrittenDelimiters
    {
      if i < |speaker| {
        assert line[i] == speaker[i];
      } else if i > |speaker| {
        assert line[i] == text[i - |speaker| - 1];
      }
    }
  }

  /** A full-width colon separates speaker from text as intended, but as
      written no delimiter is found and the line is dropped. */
  lemma AsWrittenDropsFullWidthColon(speaker: string, text: string)
    requires IsCleanUtterance(Utterance(speaker, text))
    requires forall i :: 0 <= i < |speaker| ==> speaker[i] !in Delimiters + WrittenDelimiters
    requires forall i :: 0 <= i < |text| ==> text[i] !in WrittenDelimiters
    requires !StartsWith(speaker, "**")
    ensures ParseLine(speaker + "\U{FF1A}" + text) == Matched(speaker, text)
    ensures ParseLineAsWritten(speaker + "\U{FF1A}" + text) == Unmatched
  {
    var line := speaker + "\U{FF1A}" + text;
    FullWidthLineShape(speaker, text);
    StrippedIsFixed(line);
    assert ParseLine(line) == Matched(speaker, text) by {
      PlainLineParse(line, Delimiters, |speaker|);
      StrippedIsFixed(speaker);
      StrippedIsFixed(text);
    }
    assert ParseLineAsWritten(line) == Unmatched by {
      FullWidthLineHasNoWrittenDelimiter(speaker, text);
    }
  }
}
