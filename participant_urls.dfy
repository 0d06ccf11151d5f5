/**
 * The participant URL that a bridge registers with the remote REST-AT
 * coordinator: the service base URL, normalised to end in a path separator,
 * then the participant segment, a separator and the participant id.
 */
module ParticipantUrls {
  import opened Outcomes

  predicate EndsWithSlash(s: string) {
    |s| > 0 && s[|s| - 1] == '/'
  }

  /** True when `s` begins with `prefix`. */
  predicate StartsWith(s: string, prefix: string) {
    |prefix| <= |s| && s[..|prefix|] == prefix
  }

  /**
   * The base URL with a '/' appended unless it already ends in one.
   * The source reads the last character with substring(length - 1),
   * which throws on an empty string, hence the precondition.
   */
  function NormalizeBase(base: string): (r: string)
    requires |base| > 0
    ensures EndsWithSlash(r)
    ensures StartsWith(r, base) && |r| <= |base| + 1
    ensures EndsWithSlash(base) ==> r == base
  {
    if base[|base| - 1] == '/' then base else base + "/"
  }

  /** Everything in a participant URL before the participant id. */
  function ParticipantPrefix(base: string, segment: string): string
    requires |base| > 0
  {
    NormalizeBase(base) + segment + "/"
  }

  function ParticipantUrl(base: string, segment: string, participantId: string): string
    requires |base| > 0
  {
    ParticipantPrefix(base, segment) + participantId
  }

  /** Reads the participant id back out of a participant URL built on `base` and `segment`. */
  function ParticipantIdOf(url: string, base: string, segment: string): Option<string>
    requires |base| > 0
  {
    var prefix := ParticipantPrefix(base, segment);
    if StartsWith(url, prefix) then Some(url[|prefix|..]) else None
  }

  /** The participant id can always be recovered from the URL it was enlisted under. */
  lemma ParticipantUrlRoundTrip(base: string, segment: string, participantId: string)
    requires |base| > 0
    ensures ParticipantIdOf(ParticipantUrl(base, segment, participantId), base, segment) == Some(participantId)
  {
  }

  /** Distinct participants of one service get distinct participant URLs. */
  lemma ParticipantUrlInjective(base: string, segment: string, id1: string, id2: string)
    requires |base| > 0
    requires ParticipantUrl(base, segment, id1) == ParticipantUrl(base, segment, id2)
    ensures id1 == id2
  {
    ParticipantUrlRoundTrip(base, segment, id1);
    ParticipantUrlRoundTrip(base, segment, id2);
  }

  /**
   * The participant URL starts with the caller's base URL, ends with
   * "/" followed by the participant id, and has the segment right after
   * the normalised base.
   */
  lemma ParticipantUrlShape(base: string, segment: string, participantId: string)
    requires |base| > 0
    ensures var url := ParticipantUrl(base, segment, participantId);
            var n := NormalizeBase(base);
            && StartsWith(url, base)
            && url[|n|..|n| + |segment|] == segment
            && url[|url| - |participantId| - 1] == '/'
            && url[|url| - |participantId|..] == participantId
  {
  }
}
