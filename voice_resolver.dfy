/** The speaker-to-voice table of `generate_audio` and its `'Bex'` default. */
module VoiceResolver {

  /** The voice for the host / first speaker. */
  const PersonAVoice: string := "9BWtsMINqrJLrRacOk9x"

  /** The voice for the second speaker. */
  const PersonBVoice: string := "FGY2WhTYpPnrIDTdsKH5"

  /** The voice used for every label the table does not list. */
  const DefaultVoice: string := "Bex"

  /** The exact, case-sensitive speaker labels the table knows. */
  const VoiceMappings: map<string, string> := map[
    "Host" := PersonAVoice,
    "Person A" := PersonAVoice,
    "Person B" := PersonBVoice,
    "[Person B's name]" := PersonBVoice
  ]

  /** `voice_mappings.get(speaker, 'Bex')`: defined for every label; only the
      four listed labels, spelled exactly so, get a configured voice. */
  function Resolve(speaker: string): (voice: string)
    ensures voice == PersonAVoice <==> speaker == "Host" || speaker == "Person A"
    ensures voice == PersonBVoice <==> speaker == "Person B" || speaker == "[Person B's name]"
    ensures voice == DefaultVoice <==> speaker !in VoiceMappings
    ensures speaker in VoiceMappings <==>
      speaker in {"Host", "Person A", "Person B", "[Person B's name]"}
  {
    if speaker in VoiceMappings then VoiceMappings[speaker] else DefaultVoice
  }
}
