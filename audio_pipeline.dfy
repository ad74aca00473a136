/**
 * `generate_audio` in app.py: the transcript is stripped and cut into lines,
 * each line is parsed, every parsed line is voiced by the text-to-speech
 * service in order, and the answers are joined into one audio value. A
 * failing service call aborts the whole run, and a transcript in which no
 * line parses is an error.
 */
module AudioPipeline {
  import opened Results
  import opened PyStr
  import opened PyBytes
  import opened TranscriptParser
  import opened VoiceResolver

  /** The speech model every request names. */
  const TtsModel: string := "eleven_monolingual_v1"

  /** One call of the text-to-speech service. */
  datatype TtsRequest = TtsRequest(text: string, voice: string, model: string)

  /** The text-to-speech service as seen from `generate_audio`: for each
      request, the chunks its audio stream yields, or None when the call
      raises. */
  type Tts = TtsRequest -> Option<seq<Bytes>>

  /** Why `generate_audio` raises. */
  datatype AudioError =
    | SynthesisFailed(request: TtsRequest)  // the service raised on this request
    | NoSegments                          // no line of the transcript parsed

  /** `conversation_text.strip().split('\n')`: newline-free lines that,
      joined by newlines, give back the stripped transcript. */
  function TranscriptLines(conversationText: string): (lines: seq<string>)
    ensures |lines| >= 1
    ensures forall i :: 0 <= i < |lines| ==> IsLine(lines[i])
    ensures JoinWith(lines, '\n') == Strip(conversationText)
  {
    SplitJoin(Strip(conversationText), '\n');
    Split(Strip(conversationText), '\n')
  }

  /** What the loop body makes of one line: the request it sends, if any. */
  type LineToRequest = string -> Option<TtsRequest>

  /** The request `generate_audio` sends for a line: none when the line is
      skipped or unmatched, otherwise the parsed text in the voice of the
      parsed speaker with the fixed model. The parser reads the delimiter
      class as intended. Lines come from `split('\n')`, so the newline guard
      never fails; it only makes the function total. */
  function LineRequest(line: string): (req: Option<TtsRequest>)
    ensures req.Some? <==> IsLine(line) && ParseLine(line).Matched?
    ensures req.Some? ==>
      && req.value.text == ParseLine(line).text
      && req.value.voice == Resolve(ParseLine(line).speaker)
      && req.value.model == TtsModel
  {
    if !IsLine(line) then None
    else
      match ParseLine(line)
      case Matched(speaker, text) => Some(TtsRequest(text, Resolve(speaker), TtsModel))
      case _ => None
  }

  /** The same step with the delimiter class exactly as the source file
      spells it. */
  function LineRequestAsWritten(line: string): (req: Option<TtsRequest>)
    ensures req.Some? <==> IsLine(line) && ParseLineAsWritten(line).Matched?
    ensures req.Some? ==>
      && req.value.text == ParseLineAsWritten(line).text
      && req.value.voice == Resolve(ParseLineAsWritten(line).speaker)
      && req.value.model == TtsModel
  {
    if !IsLine(line) then None
    else
      match ParseLineAsWritten(line)
      case Matched(speaker, text) => Some(TtsRequest(text, Resolve(speaker), TtsModel))
      case _ => None
  }

  /** The requests sent for `lines`, in the order of the lines: one for each
      line that `request` answers. */
  function Sent(request: LineToRequest, lines: seq<string>): (reqs: seq<TtsRequest>)
    ensures |reqs| <= |lines|
  {
    if lines == [] then []
    else
      var n := |lines| - 1;
      match request(lines[n])
      case Some(req) => Sent(request, lines[..n]) + [req]
      case None => Sent(request, lines[..n])
  }

  /** One more line adds its request, if any, behind those of the lines before it. */
  lemma SentStep(request: LineToRequest, lines: seq<string>, idx: nat)
    requires idx < |lines|
    ensures request(lines[idx]).None? ==> Sent(request, lines[..idx + 1]) == Sent(request, lines[..idx])
    ensures request(lines[idx]).Some? ==>
      Sent(request, lines[..idx + 1]) == Sent(request, lines[..idx]) + [request(lines[idx]).value]
  {
    var front := lines[..idx + 1];
    assert front[..idx] == lines[..idx];
    assert front[idx] == lines[idx];
  }

  /** The requests for two runs of lines are those for the first run followed
      by those for the second. */
  lemma {:induction false} SentConcat(request: LineToRequest, a: seq<string>, b: seq<string>)
    ensures Sent(request, a + b) == Sent(request, a) + Sent(request, b)
    decreases |b|
  {
    var ab := a + b;
    if b == [] {
      assert ab == a;
    } else {
      var n := |b| - 1;
      assert ab[..|ab| - 1] == a + b[..n];
      assert ab[|ab| - 1] == b[n];
      SentConcat(request, a, b[..n]);
    }
  }

  /** Nothing is sent exactly when no line is answered with a request. */
  lemma {:induction false} SentEmpty(request: LineToRequest, lines: seq<string>)
    ensures Sent(request, lines) == [] <==> forall i :: 0 <= i < |lines| ==> request(lines[i]).None?
  {
    if lines != [] {
      var n := |lines| - 1;
      var front := lines[..n];
      assert forall i :: 0 <= i < n ==> front[i] == lines[i];
      SentEmpty(request, front);
    }
  }

  /** A line without a request can be taken out without changing what is sent. */
  lemma SentWithout(request: LineToRequest, before: seq<string>, line: string, after: seq<string>)
    requires request(line).None?
    ensures Sent(request, before + [line] + after) == Sent(request, before + after)
  {
    SentConcat(request, before, [line]);
    assert Sent(request, [line]) == [] by {
      assert [line][..0] == [];
    }
    assert before + [line] == before + [line] + [];
    SentConcat(request, before + [line], after);
    SentConcat(request, before, after);
  }

  /** The requests `generate_audio` sends for a transcript, in order. */
  function TranscriptRequests(conversationText: string): (reqs: seq<TtsRequest>)
    ensures |reqs| <= |TranscriptLines(conversationText)|
  {
    Sent(LineRequest, TranscriptLines(conversationText))
  }

  /** A blank line, a line opening with `**(` or a line without a delimiter
      adds no request: the service is never asked about it. */
  lemma DroppedLineSendsNothing(before: seq<string>, line: string, after: seq<string>)
    requires IsLine(line)
    requires ParseLine(line).Skipped? || ParseLine(line).Unmatched?
    ensures Sent(LineRequest, before + [line] + after) == Sent(LineRequest, before + after)
  {
    SentWithout(LineRequest, before, line, after);
  }

  /** A formatted line `S: T` is sent as the text `T` in the voice the table
      gives `S`. */
  lemma PlainLineRequest(u: Utterance)
    requires IsCleanUtterance(u)
    requires forall i :: 0 <= i < |u.speaker| ==> u.speaker[i] !in Delimiters
    requires !StartsWith(u.speaker, "**")
    ensures LineRequest(PlainLine(u)) == Some(TtsRequest(u.text, Resolve(u.speaker), TtsModel))
  {
    var line := PlainLine(u);
    assert IsLine(line);
    assert ParseLine(line) == Matched(u.speaker, u.text) by {
      PlainLineRoundTrip(u, Delimiters);
    }
  }

  /** A bold line `**S**: T` is sent as the text `T` in the voice the table
      gives `S`, even when `S` holds a colon. */
  lemma BoldLineRequest(u: Utterance)
    requires IsCleanUtterance(u)
    requires '*' !in u.speaker
    requires !StartsWith(u.speaker, "(")
    ensures LineRequest(BoldLine(u)) == Some(TtsRequest(u.text, Resolve(u.speaker), TtsModel))
  {
    var line := BoldLine(u);
    assert IsLine(line);
    assert ParseLine(line) == Matched(u.speaker, u.text) by {
      BoldLineRoundTrip(u, Delimiters);
    }
  }

  /** An utterance the bold form `**S**: T` carries through the parser. */
  predicate BoldReady(u: Utterance) {
    IsCleanUtterance(u) && '*' !in u.speaker && !StartsWith(u.speaker, "(")
  }

  /** The utterances written one per line in the bold form. */
  function BoldLines(us: seq<Utterance>): seq<string> {
    seq(|us|, i requires 0 <= i < |us| => BoldLine(us[i]))
  }

  /** The request that voices one utterance: its text, in the voice the
      table gives its speaker. */
  function Voice(u: Utterance): TtsRequest {
    TtsRequest(u.text, Resolve(u.speaker), TtsModel)
  }

  /** The requests that voice the utterances, in order. */
  function Voiced(us: seq<Utterance>): seq<TtsRequest> {
    seq(|us|, i requires 0 <= i < |us| => Voice(us[i]))
  }

  /** The requests for utterances are those for all but the last, then the last's. */
  lemma VoicedLast(us: seq<Utterance>)
    requires |us| >= 1
    ensures Voiced(us) == Voiced(us[..|us| - 1]) + [Voice(us[|us| - 1])]
  {
    var n := |us| - 1;
    assert forall i :: 0 <= i < n ==> Voiced(us)[i] == Voiced(us[..n])[i];
  }

  /** Lines that each yield a request send exactly those requests, in order. */
  lemma {:induction false} SentMap(request: LineToRequest, lines: seq<string>, reqs: seq<TtsRequest>)
    requires |lines| == |reqs|
    requires forall i :: 0 <= i < |lines| ==> request(lines[i]) == Some(reqs[i])
    ensures Sent(request, lines) == reqs
  {
    if lines != [] {
      var n := |lines| - 1;
      SentMap(request, lines[..n], reqs[..n]);
      assert reqs == reqs[..n] + [reqs[n]];
    }
  }

  /** Bold lines are sent as their utterances, in order. */
  lemma BoldLinesSent(us: seq<Utterance>)
    requires forall i :: 0 <= i < |us| ==> BoldReady(us[i])
    ensures Sent(LineRequest, BoldLines(us)) == Voiced(us)
  {
    forall i | 0 <= i < |us|
      ensures LineRequest(BoldLines(us)[i]) == Some(Voiced(us)[i])
    {
      BoldLineRequest(us[i]);
    }
    SentMap(LineRequest, BoldLines(us), Voiced(us));
  }

  /** The stripped bold form of an utterance is sent like its bold form. */
  lemma BoldCoreRequest(u: Utterance)
    requires BoldReady(u)
    ensures IsLine(BoldCore(u)) && IsStripped(BoldCore(u)) && BoldCore(u) != []
    ensures LineRequest(BoldCore(u)) == Some(TtsRequest(u.text, Resolve(u.speaker), TtsModel))
  {
    var core := BoldCore(u);
    BoldCoreShape(u);
    assert IsStripped(core) by {
      StripBoldLine(u);
    }
    assert ParseLine(core) == Matched(u.speaker, u.text) by {
      StrippedIsFixed(core);
      BoldCoreParses(u, Delimiters);
    }
  }

  /** A bold line is its stripped form plus the blank left behind an empty text. */
  lemma BoldLineTrail(u: Utterance)
    ensures BoldLine(u) == BoldCore(u) + (if u.text == [] then " " else [])
  {
    if u.text == [] {
      assert BoldLine(u) == "**" + u.speaker + "**: ";
    } else {
      assert BoldLine(u) == "**" + u.speaker + ("**:" + (" " + u.text));
    }
  }

  /** Lines that start and end without whitespace join into a stripped text. */
  lemma JoinedStripped(front: seq<string>, last: string)
    requires last != [] && !IsSpace(last[|last| - 1])
    requires front != [] ==> front[0] != [] && !IsSpace(front[0][0])
    requires front == [] ==> !IsSpace(last[0])
    ensures IsStripped(JoinWith(front + [last], '\n'))
  {
    var lines := front + [last];
    var joined := JoinWith(lines, '\n');
    var first := if front == [] then last else front[0];
    assert lines[0] == first && lines[|lines| - 1] == last;
    JoinWithEnds(lines, '\n');
    assert joined[0] == first[0];
    assert joined[|joined| - 1] == last[|last| - 1];
  }

  /** Lines whose join has no whitespace at either end, written after
      whitespace `p`, with whitespace `trail` behind the last line and `q`
      after it: stripping leaves exactly their join. */
  lemma StripJoinedLines(front: seq<string>, last: string, trail: string, p: string, q: string)
    requires last != [] && !IsSpace(last[|last| - 1])
    requires front != [] ==> front[0] != [] && !IsSpace(front[0][0])
    requires front == [] ==> !IsSpace(last[0])
    requires AllSpace(p) && AllSpace(trail) && AllSpace(q)
    ensures Strip(p + JoinWith(front + [last + trail], '\n') + q) == JoinWith(front + [last], '\n')
  {
    var joined := JoinWith(front + [last], '\n');
    JoinWithLast(front, last, trail, '\n');
    JoinedStripped(front, last);
    AllSpaceConcat(trail, q);
    Regroup(p, joined, trail, q);
    StripUnique(p, joined, trail + q);
  }

  /** A transcript that strips to a join of newline-free lines has exactly
      those lines. */
  lemma TranscriptOfJoin(conversationText: string, lines: seq<string>)
    requires |lines| >= 1 && forall i :: 0 <= i < |lines| ==> IsLine(lines[i])
    requires Strip(conversationText) == JoinWith(lines, '\n')
    ensures TranscriptLines(conversationText) == lines
  {
    JoinSplit(lines, '\n');
  }

  /** Appending a newline-free line keeps every line newline-free. */
  lemma LinesAppend(front: seq<string>, last: string)
    requires forall i :: 0 <= i < |front| ==> IsLine(front[i])
    requires IsLine(last)
    ensures forall i :: 0 <= i < |front + [last]| ==> IsLine((front + [last])[i])
  {
  }

  /** Such a transcript has exactly those lines, when none holds a newline. */
  lemma TranscriptOfLines(front: seq<string>, last: string, trail: string, p: string, q: string)
    requires forall i :: 0 <= i < |front| ==> IsLine(front[i])
    requires IsLine(last) && last != [] && !IsSpace(last[|last| - 1])
    requires front != [] ==> front[0] != [] && !IsSpace(front[0][0])
    requires front == [] ==> !IsSpace(last[0])
    requires AllSpace(p) && AllSpace(trail) && AllSpace(q)
    ensures TranscriptLines(p + JoinWith(front + [last + trail], '\n') + q) == front + [last]
  {
    StripJoinedLines(front, last, trail, p, q);
    LinesAppend(front, last);
    TranscriptOfJoin(p + JoinWith(front + [last + trail], '\n') + q, front + [last]);
  }

  /** The lines of a transcript of bold lines, surrounded by any whitespace:
      the bold lines, except that the last loses a blank left behind an
      empty text. */
  lemma BoldTranscriptLines(us: seq<Utterance>, p: string, q: string)
    requires |us| >= 1 && forall i :: 0 <= i < |us| ==> BoldReady(us[i])
    requires AllSpace(p) && AllSpace(q)
    ensures TranscriptLines(p + JoinWith(BoldLines(us), '\n') + q)
      == BoldLines(us[..|us| - 1]) + [BoldCore(us[|us| - 1])]
  {
    var n := |us| - 1;
    var front, core := BoldLines(us[..n]), BoldCore(us[n]);
    var trail: string := if us[n].text == [] then " " else [];
    assert BoldLines(us) == front + [core + trail] by {
      BoldLineTrail(us[n]);
    }
    assert IsLine(core) && IsStripped(core) && core != [] && core[0] == '*' by {
      BoldCoreShape(us[n]);
      StripBoldLine(us[n]);
    }
    assert forall i :: 0 <= i < |front| ==> IsLine(front[i]);
    assert front != [] ==> front[0] != [] && front[0][0] == '*';
    TranscriptOfLines(front, core, trail, p, q);
  }

  /** A transcript written line by line in the bold form, with any whitespace
      around it, sends one request per utterance, in order: its text in the
      voice the table gives its speaker. */
  lemma BoldTranscriptRequests(us: seq<Utterance>, p: string, q: string)
    requires forall i :: 0 <= i < |us| ==> BoldReady(us[i])
    requires AllSpace(p) && AllSpace(q)
    ensures TranscriptRequests(p + JoinWith(BoldLines(us), '\n') + q) == Voiced(us)
  {
    if us == [] {
      BlankAroundNothing(p, q);
      return;
    }
    var n := |us| - 1;
    var front, core := BoldLines(us[..n]), BoldCore(us[n]);
    assert TranscriptLines(p + JoinWith(BoldLines(us), '\n') + q) == front + [core] by {
      BoldTranscriptLines(us, p, q);
    }
    assert Sent(LineRequest, front) == Voiced(us[..n]) by {
      BoldLinesSent(us[..n]);
    }
    assert Sent(LineRequest, [core]) == [Voice(us[n])] by {
      BoldCoreRequest(us[n]);
      SentSingle(LineRequest, core);
    }
    SentConcat(LineRequest, front, [core]);
    VoicedLast(us);
  }

  /** A transcript of whitespace only has one blank line and sends nothing. */
  lemma BlankTranscriptSendsNothing(conversationText: string)
    requires AllSpace(conversationText)
    ensures TranscriptRequests(conversationText) == []
  {
    var lines := TranscriptLines(conversationText);
    assert lines == [[]] by {
      assert Strip(conversationText) == [];
      assert FirstIn([], {'\n'}) == None;
    }
    assert ParseLine([]).Skipped?;
    SentEmpty(LineRequest, lines);
  }

  /** Whitespace around no lines at all sends nothing. */
  lemma BlankAroundNothing(p: string, q: string)
    requires AllSpace(p) && AllSpace(q)
    ensures TranscriptRequests(p + JoinWith([], '\n') + q) == []
  {
    AllSpaceConcat(p, q);
    assert p + JoinWith([], '\n') + q == p + q;
    BlankTranscriptSendsNothing(p + q);
  }

  /** Newline-free lines joined by newlines, with whitespace behind the last
      line and around the whole: the transcript sends the requests of those
      lines, in order. */
  lemma JoinedLinesRequests(front: seq<string>, last: string, trail: string, p: string, q: string)
    requires forall i :: 0 <= i < |front| ==> IsLine(front[i])
    requires IsLine(last) && last != [] && !IsSpace(last[|last| - 1])
    requires front != [] ==> front[0] != [] && !IsSpace(front[0][0])
    requires front == [] ==> !IsSpace(last[0])
    requires AllSpace(p) && AllSpace(trail) && AllSpace(q)
    ensures TranscriptRequests(p + JoinWith(front + [last + trail], '\n') + q)
      == Sent(LineRequest, front) + Sent(LineRequest, [last])
  {
    TranscriptOfLines(front, last, trail, p, q);
    SentConcat(LineRequest, front, [last]);
  }

  /** An utterance the plain form `S: T` carries through the parser: a clean
      one whose speaker holds no delimiter and does not open with `**`. */
  predicate PlainReady(u: Utterance) {
    && IsCleanUtterance(u)
    && (forall i :: 0 <= i < |u.speaker| ==> u.speaker[i] !in Delimiters)
    && !StartsWith(u.speaker, "**")
  }

  /** The utterances written one per line in the plain form. */
  function PlainLines(us: seq<Utterance>): seq<string> {
    seq(|us|, i requires 0 <= i < |us| => PlainLine(us[i]))
  }

  /** The stripped plain form of an utterance is a non-blank line with no
      whitespace at either end, sent as that utterance's request. */
  lemma PlainCoreRequest(u: Utterance)
    requires PlainReady(u)
    ensures IsLine(PlainCore(u)) && PlainCore(u) != []
    ensures !IsSpace(PlainCore(u)[0]) && !IsSpace(PlainCore(u)[|PlainCore(u)| - 1])
    ensures LineRequest(PlainCore(u)) == Some(Voice(u))
  {
    var core := PlainCore(u);
    PlainCoreShape(u);
    assert IsStripped(core) by {
      StripPlainLine(u);
    }
    assert ParseLine(core) == Matched(u.speaker, u.text) by {
      StrippedIsFixed(core);
      PlainCoreParses(u, Delimiters);
    }
  }

  /** A plain line is its stripped form plus the blank left behind an empty text. */
  lemma PlainLineTrail(u: Utterance)
    ensures PlainLine(u) == PlainCore(u) + (if u.text == [] then " " else [])
  {
    if u.text == [] {
      assert PlainLine(u) == u.speaker + ": ";
    } else {
      assert PlainLine(u) == u.speaker + ":" + (" " + u.text);
    }
  }

  /** Plain lines are sent as their utterances, one request each, in order;
      the first of them opens without whitespace. */
  lemma PlainLinesSent(us: seq<Utterance>)
    requires forall i :: 0 <= i < |us| ==> PlainReady(us[i])
    ensures forall i :: 0 <= i < |us| ==> LineRequest(PlainLines(us)[i]) == Some(Voice(us[i]))
    ensures us != [] ==> PlainLines(us)[0] != [] && !IsSpace(PlainLines(us)[0][0])
    ensures Sent(LineRequest, PlainLines(us)) == Voiced(us)
  {
    forall i | 0 <= i < |us|
      ensures LineRequest(PlainLines(us)[i]) == Some(Voice(us[i]))
    {
      PlainLineRequest(us[i]);
    }
    if us != [] {
      PlainCoreRequest(us[0]);
      PlainLineTrail(us[0]);
    }
    SentMap(LineRequest, PlainLines(us), Voiced(us));
  }

  /** The requests of a plain transcript, surrounded by any whitespace: those
      of all lines but the last, then those of the last one stripped. */
  lemma PlainTranscriptParts(us: seq<Utterance>, p: string, q: string)
    requires |us| >= 1 && forall i :: 0 <= i < |us| ==> PlainReady(us[i])
    requires AllSpace(p) && AllSpace(q)
    ensures TranscriptRequests(p + JoinWith(PlainLines(us), '\n') + q)
      == Sent(LineRequest, PlainLines(us[..|us| - 1])) + Sent(LineRequest, [PlainCore(us[|us| - 1])])
  {
    var n := |us| - 1;
    var front, core := PlainLines(us[..n]), PlainCore(us[n]);
    var trail: string := if us[n].text == [] then " " else [];
    assert PlainLines(us) == front + [core + trail] by {
      PlainLineTrail(us[n]);
    }
    PlainCoreRequest(us[n]);
    PlainLinesSent(us[..n]);
    JoinedLinesRequests(front, core, trail, p, q);
  }

  /** A transcript written line by line in the plain form the generation
      prompt asks for, with any whitespace around it, sends one request per
      utterance, in order: its text in the voice the table gives its speaker. */
  lemma PlainTranscriptRequests(us: seq<Utterance>, p: string, q: string)
    requires forall i :: 0 <= i < |us| ==> PlainReady(us[i])
    requires AllSpace(p) && AllSpace(q)
    ensures TranscriptRequests(p + JoinWith(PlainLines(us), '\n') + q) == Voiced(us)
  {
    if us == [] {
      BlankAroundNothing(p, q);
    } else {
      var n := |us| - 1;
      var front, core := PlainLines(us[..n]), PlainCore(us[n]);
      PlainTranscriptParts(us, p, q);
      assert Sent(LineRequest, front) == Voiced(us[..n]) by {
        PlainLinesSent(us[..n]);
      }
      assert Sent(LineRequest, [core]) == [Voice(us[n])] by {
        PlainCoreRequest(us[n]);
        SentSingle(LineRequest, core);
      }
      VoicedLast(us);
    }
  }

  /** The service answers every request of `reqs`. */
  predicate AllVoiced(reqs: seq<TtsRequest>, tts: Tts) {
    forall i :: 0 <= i < |reqs| ==> tts(reqs[i]).Some?
  }

  /** One segment per request, in order, each the joined chunks of its
      stream; the first request the service raises on ends the run. */
  function Synthesize(reqs: seq<TtsRequest>, tts: Tts): (r: Result<seq<Bytes>, AudioError>)
    ensures r.Success? <==> AllVoiced(reqs, tts)
    ensures r.Success? ==> |r.value| == |reqs|
    ensures r.Failure? ==> r.error.SynthesisFailed?
  {
    if reqs == [] then Success([])
    else
      var n := |reqs| - 1;
      assert forall i :: 0 <= i < n ==> reqs[..n][i] == reqs[i];
      match Synthesize(reqs[..n], tts)
      case Failure(e) => Failure(e)
      case Success(segments) =>
        match tts(reqs[n])
        case None => Failure(SynthesisFailed(reqs[n]))
        case Some(chunks) => Success(segments + [Join(chunks)])
  }

  /** In a successful run, segment `i` is the joined stream of request `i`. */
  lemma {:induction false} SynthesizeSegmentAt(reqs: seq<TtsRequest>, tts: Tts, i: nat)
    requires Synthesize(reqs, tts).Success? && i < |reqs|
    ensures Synthesize(reqs, tts).value[i] == Join(tts(reqs[i]).value)
  {
    var n := |reqs| - 1;
    var front := reqs[..n];
    assert forall k :: 0 <= k < n ==> front[k] == reqs[k];
    assert AllVoiced(front, tts);
    if i < n {
      SynthesizeSegmentAt(front, tts, i);
    }
  }

  /** The outcome of the run for a given line-to-request step: the error it
      raises, or the bytes it writes. */
  function CombinedAudioWith(request: LineToRequest, conversationText: string, tts: Tts): (r: Result<Bytes, AudioError>)
    ensures r == Failure(NoSegments) <==> Sent(request, TranscriptLines(conversationText)) == []
    ensures r.Success? <==>
      && Sent(request, TranscriptLines(conversationText)) != []
      && AllVoiced(Sent(request, TranscriptLines(conversationText)), tts)
  {
    match Synthesize(Sent(request, TranscriptLines(conversationText)), tts)
    case Failure(e) => Failure(e)
    case Success(segments) =>
      if segments == [] then Failure(NoSegments) else Success(Join(segments))
  }

  /** What `generate_audio` produces for a transcript, with the delimiter
      class read as intended. */
  function CombinedAudio(conversationText: string, tts: Tts): (r: Result<Bytes, AudioError>)
    ensures r == Failure(NoSegments) <==> TranscriptRequests(conversationText) == []
    ensures r.Success? <==>
      TranscriptRequests(conversationText) != [] && AllVoiced(TranscriptRequests(conversationText), tts)
  {
    CombinedAudioWith(LineRequest, conversationText, tts)
  }

  /** A transcript of one stripped, newline-free line has just that line. */
  lemma SingleLineTranscript(line: string)
    requires IsLine(line) && IsStripped(line)
    ensures TranscriptLines(line) == [line]
  {
    StrippedIsFixed(line);
    JoinSplit([line], '\n');
    assert JoinWith([line], '\n') == line;
  }

  /** For a single line, what is sent is that line's request, if any. */
  lemma SentSingle(request: LineToRequest, line: string)
    ensures request(line).None? ==> Sent(request, [line]) == []
    ensures request(line).Some? ==> Sent(request, [line]) == [request(line).value]
  {
    assert [line][..0] == [];
  }

  /** A line whose speaker and text are separated by a full-width colon:
      read as intended it yields its request; with the delimiter class as
      written it yields none. */
  lemma FullWidthLineRequests(speaker: string, text: string)
    requires IsCleanUtterance(Utterance(speaker, text))
    requires forall i :: 0 <= i < |speaker| ==> speaker[i] !in Delimiters + WrittenDelimiters
    requires forall i :: 0 <= i < |text| ==> text[i] !in WrittenDelimiters
    requires !StartsWith(speaker, "**")
    ensures IsLine(speaker + "\U{FF1A}" + text) && IsStripped(speaker + "\U{FF1A}" + text)
    ensures LineRequest(speaker + "\U{FF1A}" + text) == Some(TtsRequest(text, Resolve(speaker), TtsModel))
    ensures LineRequestAsWritten(speaker + "\U{FF1A}" + text) == None
  {
    var line := speaker + "\U{FF1A}" + text;
    assert IsLine(line);
    assert IsStripped(line) by {
      FullWidthLineShape(speaker, text);
    }
    AsWrittenDropsFullWidthColon(speaker, text);
  }

  /** A transcript whose one line separates speaker and text by a full-width
      colon: read as intended it sends a request; with the delimiter class as
      written nothing is sent and the run raises "no audio segments". */
  lemma AsWrittenFullWidthTranscriptHasNoSegments(speaker: string, text: string, tts: Tts)
    requires IsCleanUtterance(Utterance(speaker, text))
    requires forall i :: 0 <= i < |speaker| ==> speaker[i] !in Delimiters + WrittenDelimiters
    requires forall i :: 0 <= i < |text| ==> text[i] !in WrittenDelimiters
    requires !StartsWith(speaker, "**")
    ensures TranscriptRequests(speaker + "\U{FF1A}" + text) == [TtsRequest(text, Resolve(speaker), TtsModel)]
    ensures CombinedAudio(speaker + "\U{FF1A}" + text, tts) != Failure(NoSegments)
    ensures CombinedAudioWith(LineRequestAsWritten, speaker + "\U{FF1A}" + text, tts) == Failure(NoSegments)
  {
    var line := speaker + "\U{FF1A}" + text;
    FullWidthLineRequests(speaker, text);
    SingleLineTranscript(line);
    SentSingle(LineRequest, line);
    SentSingle(LineRequestAsWritten, line);
  }

  /** The run raises "no audio segments" exactly when no line of the
      transcript parses, whatever the service would answer. */
  lemma NoSegmentsIffNothingParses(conversationText: string, tts: Tts)
    ensures var lines := TranscriptLines(conversationText);
      CombinedAudio(conversationText, tts) == Failure(NoSegments) <==>
      forall i :: 0 <= i < |lines| ==> !ParseLine(lines[i]).Matched?
  {
    var lines := TranscriptLines(conversationText);
    SentEmpty(LineRequest, lines);
    assert forall i :: 0 <= i < |lines| ==>
      (LineRequest(lines[i]).None? <==> !ParseLine(lines[i]).Matched?);
  }

  /** The outcome depends on the service only through its answers to the
      requests sent. */
  lemma {:induction false} SynthesizeAsksOnlyForRequests(reqs: seq<TtsRequest>, tts1: Tts, tts2: Tts)
    requires forall i :: 0 <= i < |reqs| ==> tts1(reqs[i]) == tts2(reqs[i])
    ensures Synthesize(reqs, tts1) == Synthesize(reqs, tts2)
  {
    if reqs != [] {
      var n := |reqs| - 1;
      assert forall i :: 0 <= i < n ==> reqs[..n][i] == reqs[i];
      SynthesizeAsksOnlyForRequests(reqs[..n], tts1, tts2);
    }
  }

  /** Once a prefix fails, the run fails with the same error however many
      requests follow. */
  lemma {:induction false} SynthesizeFailurePersists(reqs: seq<TtsRequest>, more: seq<TtsRequest>, tts: Tts)
    requires Synthesize(reqs, tts).Failure?
    ensures Synthesize(reqs + more, tts) == Synthesize(reqs, tts)
    decreases |more|
  {
    if more == [] {
      assert reqs + more == reqs;
    } else {
      var n := |more| - 1;
      var all := reqs + more;
      assert all[..|all| - 1] == reqs + more[..n];
      SynthesizeFailurePersists(reqs, more[..n], tts);
    }
  }

  /** The run fails on the first request the service raises on, and the
      segments gathered before it are discarded. */
  lemma {:induction false} SynthesizeFailsAtFirst(reqs: seq<TtsRequest>, tts: Tts, i: nat)
    requires i < |reqs| && tts(reqs[i]).None?
    requires forall k :: 0 <= k < i ==> tts(reqs[k]).Some?
    ensures Synthesize(reqs, tts) == Failure(SynthesisFailed(reqs[i]))
  {
    var n := |reqs| - 1;
    var front := reqs[..n];
    assert forall k :: 0 <= k < n ==> front[k] == reqs[k];
    if i == n {
      assert AllVoiced(front, tts);
    } else {
      SynthesizeFailsAtFirst(front, tts, i);
    }
  }

  /** Appending a request to a run that has succeeded so far either adds its
      segment or fails on it. */
  lemma SynthesizeAppend(reqs: seq<TtsRequest>, req: TtsRequest, tts: Tts)
    requires Synthesize(reqs, tts).Success?
    ensures tts(req).None? ==> Synthesize(reqs + [req], tts) == Failure(SynthesisFailed(req))
    ensures tts(req).Some? ==>
      Synthesize(reqs + [req], tts) == Success(Synthesize(reqs, tts).value + [Join(tts(req).value)])
  {
    assert (reqs + [req])[..|reqs|] == reqs;
  }

  /** A successful run writes every segment in order: segment `i` is the
      joined stream for request `i` and sits right after the segments before
      it; the length is the sum of the segment lengths. */
  lemma CombinedAudioLayout(conversationText: string, tts: Tts, i: nat)
    requires CombinedAudio(conversationText, tts).Success?
    requires i < |TranscriptRequests(conversationText)|
    ensures Synthesize(TranscriptRequests(conversationText), tts).Success?
    ensures var reqs := TranscriptRequests(conversationText);
      var segments := Synthesize(reqs, tts).value;
      var audio := CombinedAudio(conversationText, tts).value;
      && |audio| == TotalLength(segments)
      && audio == Join(segments[..i]) + Join(tts(reqs[i]).value) + Join(segments[i + 1..])
  {
    var reqs := TranscriptRequests(conversationText);
    var segments := Synthesize(reqs, tts).value;
    SynthesizeSegmentAt(reqs, tts, i);
    JoinSplitsAt(segments, i);
  }

  /** The emptiness check is on the list of segments, not on their bytes: if
      some line parses and the service answers every request sent with a
      stream whose chunks join to no bytes, the run still succeeds, with
      empty output. */
  lemma SilentSegmentsStillSucceed(conversationText: string, tts: Tts)
    requires TranscriptRequests(conversationText) != []
    requires AllVoiced(TranscriptRequests(conversationText), tts)
    requires forall i :: 0 <= i < |TranscriptRequests(conversationText)| ==>
      Join(tts(TranscriptRequests(conversationText)[i]).value) == []
    ensures CombinedAudio(conversationText, tts) == Success([])
  {
    var reqs := TranscriptRequests(conversationText);
    var segments := Synthesize(reqs, tts).value;
    forall k | 0 <= k < |segments|
      ensures segments[k] == []
    {
      SynthesizeSegmentAt(reqs, tts, k);
    }
    JoinAllEmpty(segments);
  }

  /** Once the requests for the first `k` lines fail, the requests for all
      lines fail in the same way. */
  lemma SentFailurePersists(request: LineToRequest, lines: seq<string>, k: nat, tts: Tts)
    requires k <= |lines|
    requires Synthesize(Sent(request, lines[..k]), tts).Failure?
    ensures Synthesize(Sent(request, lines), tts) == Synthesize(Sent(request, lines[..k]), tts)
  {
    var front, rest := lines[..k], lines[k..];
    assert Sent(request, lines) == Sent(request, front) + Sent(request, rest) by {
      assert front + rest == lines;
      SentConcat(request, front, rest);
    }
    SynthesizeFailurePersists(Sent(request, front), Sent(request, rest), tts);
  }

  /** A turn of the loop over the lines for a line without a request:
      nothing is sent and nothing changes. */
  lemma LoopSkips(request: LineToRequest, lines: seq<string>, idx: nat, tts: Tts, segments: seq<Bytes>)
    requires idx < |lines| && request(lines[idx]).None?
    requires Synthesize(Sent(request, lines[..idx]), tts) == Success(segments)
    ensures Synthesize(Sent(request, lines[..idx + 1]), tts) == Success(segments)
  {
    SentStep(request, lines, idx);
  }

  /** A turn of the loop for a request the service answers: its segment is
      appended. */
  lemma LoopAppends(request: LineToRequest, lines: seq<string>, idx: nat, tts: Tts, segments: seq<Bytes>, req: TtsRequest)
    requires idx < |lines| && request(lines[idx]) == Some(req) && tts(req).Some?
    requires Synthesize(Sent(request, lines[..idx]), tts) == Success(segments)
    ensures Synthesize(Sent(request, lines[..idx + 1]), tts) == Success(segments + [Join(tts(req).value)])
  {
    SentStep(request, lines, idx);
    SynthesizeAppend(Sent(request, lines[..idx]), req, tts);
  }

  /** A turn of the loop for a request the service raises on: the run so
      far fails on that request. */
  lemma LoopFails(request: LineToRequest, lines: seq<string>, idx: nat, tts: Tts, req: TtsRequest)
    requires idx < |lines| && request(lines[idx]) == Some(req) && tts(req).None?
    requires Synthesize(Sent(request, lines[..idx]), tts).Success?
    ensures Synthesize(Sent(request, lines[..idx + 1]), tts) == Failure(SynthesisFailed(req))
  {
    SentStep(request, lines, idx);
    SynthesizeAppend(Sent(request, lines[..idx]), req, tts);
  }

  /** The loop of `generate_audio` over the lines, with the line-to-request
      step as a parameter (`GenerateAudio` passes `LineRequest`): for each
      line that yields a request, sends it and appends the joined stream as a segment,
      in order; the first request the service raises on ends the loop with
      that error and discards the segments gathered so far. */
  method CollectSegments(lines: seq<string>, request: LineToRequest, tts: Tts) returns (r: Result<seq<Bytes>, AudioError>)
    ensures r == Synthesize(Sent(request, lines), tts)
  {
    var audioSegments: seq<Bytes> := [];
    for idx := 0 to |lines|
      invariant Synthesize(Sent(request, lines[..idx]), tts) == Success(audioSegments)
    {
      var line := request(lines[idx]);
      if line.Some? {
        var req := line.value;
        var stream := tts(req);
        if stream.None? {
          LoopFails(request, lines, idx, tts, req);
          SentFailurePersists(request, lines, idx + 1, tts);
          return Failure(SynthesisFailed(req));
        }
        LoopAppends(request, lines, idx, tts, audioSegments, req);
        audioSegments := audioSegments + [Join(stream.value)];
      } else {
        LoopSkips(request, lines, idx, tts, audioSegments);
      }
    }
    assert lines[..|lines|] == lines;
    return Success(audioSegments);
  }

  /** `generate_audio`: splits the stripped transcript into lines, gathers
      the segments, raises when there are none and otherwise returns them
      joined, which is what is written to the output file. */
  method GenerateAudio(conversationText: string, tts: Tts) returns (r: Result<Bytes, AudioError>)
    ensures r == CombinedAudio(conversationText, tts)
  {
    var lines := TranscriptLines(conversationText);
    var segments := CollectSegments(lines, LineRequest, tts);
    match segments {
      case Failure(e) =>
        return Failure(e);
      case Success(audioSegments) =>
        if audioSegments == [] {
          return Failure(NoSegments);
        }
        return Success(Join(audioSegments));
    }
  }
}
