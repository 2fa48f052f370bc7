/**
 * Recognising UUIDs in strings: the canonical 8-4-4-4-12 shape is checked by hand
 * and the rest is left to UUID.fromString, a parameter here that yields None where
 * the Java call throws.
 */
module CanonicalText {
  import opened Wrappers
  import opened JavaArith
  import opened TimestampCodec

  /** Length of the canonical form. */
  const TEXT_LENGTH := 36

  /** The five groups of the canonical form, hyphens left out. */
  datatype Groups = Groups(timeLow: string, timeMid: string, timeHi: string, clockSeq: string, node: string)

  /** Groups of 8, 4, 4, 4 and 12 characters. */
  predicate WellSized(g: Groups) {
    |g.timeLow| == 8 && |g.timeMid| == 4 && |g.timeHi| == 4 && |g.clockSeq| == 4 && |g.node| == 12
  }

  /** The groups joined by hyphens. */
  function Hyphenated(g: Groups): (s: string)
    ensures WellSized(g) ==> |s| == TEXT_LENGTH
  {
    g.timeLow + "-" + g.timeMid + "-" + g.timeHi + "-" + g.clockSeq + "-" + g.node
  }

  /** The groups of a 36-character string: what lies between positions 8, 13, 18 and 23. */
  function Split(s: string): (g: Groups)
    requires |s| == TEXT_LENGTH
    ensures WellSized(g)
  {
    Groups(s[0..8], s[9..13], s[14..18], s[19..23], s[24..])
  }

  /** s has the canonical shape: five groups of 8, 4, 4, 4 and 12 characters separated by hyphens. */
  ghost predicate Canonical(s: string) {
    exists g :: WellSized(g) && Hyphenated(g) == s
  }

  /**
   * tryGetUUID: null when s is null, is not 36 characters long, or lacks a hyphen
   * at position 8, 13, 18 or 23; otherwise whatever UUID.fromString makes of it,
   * null when that throws.
   */
  function TryGetUuid(s: Option<string>, fromString: string -> Option<Uuid>): (r: Option<Uuid>)
    ensures r.Some? ==> s.Some? && r == fromString(s.value)
    ensures s.Some? && |s.value| != TEXT_LENGTH ==> r.None?
  {
    if s.None? then None
    else
      var str := s.value;
      if |str| != TEXT_LENGTH then None
      else if str[8] != '-' then None
      else if str[13] != '-' then None
      else if str[18] != '-' then None
      else if str[23] != '-' then None
      else fromString(str)
  }

  /** Joining well-sized groups and splitting them again gives the groups back. */
  lemma SplitHyphenated(g: Groups)
    requires WellSized(g)
    ensures Split(Hyphenated(g)) == g
  {
    var s := Hyphenated(g);
    assert s[0..8] == g.timeLow;
    assert s[9..13] == g.timeMid;
    assert s[14..18] == g.timeHi;
    assert s[19..23] == g.clockSeq;
    assert s[24..] == g.node;
  }

  /** A 36-character string with hyphens at 8, 13, 18 and 23 is its groups joined again. */
  lemma HyphenatedSplit(s: string)
    requires |s| == TEXT_LENGTH && s[8] == '-' && s[13] == '-' && s[18] == '-' && s[23] == '-'
    ensures Hyphenated(Split(s)) == s
  {
    var h := Hyphenated(Split(s));
    assert |h| == TEXT_LENGTH;
    forall i | 0 <= i < TEXT_LENGTH
      ensures h[i] == s[i]
    {
    }
  }

  /**
   * The guards of tryGetUUID accept exactly the canonical shape: a string passes them
   * if and only if it is five groups of 8, 4, 4, 4 and 12 characters joined by hyphens.
   */
  lemma TryGetUuidShape(s: Option<string>, fromString: string -> Option<Uuid>)
    ensures TryGetUuid(s, fromString) == if s.Some? && Canonical(s.value) then fromString(s.value) else None
  {
    if s.Some? {
      var str := s.value;
      if Canonical(str) {
        var g :| WellSized(g) && Hyphenated(g) == str;
        HyphenPositions(g);
      }
      if |str| == TEXT_LENGTH && str[8] == '-' && str[13] == '-' && str[18] == '-' && str[23] == '-' {
        HyphenatedSplit(str);
        assert WellSized(Split(str));
      }
    }
  }

  /** Joined groups have their hyphens at positions 8, 13, 18 and 23. */
  lemma HyphenPositions(g: Groups)
    requires WellSized(g)
    ensures var s := Hyphenated(g);
      |s| == TEXT_LENGTH && s[8] == '-' && s[13] == '-' && s[18] == '-' && s[23] == '-'
  {
  }

  /** isUUID: whether tryGetUUID finds a UUID. */
  function IsUuid(s: Option<string>, fromString: string -> Option<Uuid>): (r: bool)
    ensures r <==> s.Some? && Canonical(s.value) && fromString(s.value).Some?
  {
    TryGetUuidShape(s, fromString);
    TryGetUuid(s, fromString).Some?
  }

  /**
   * startsWithUUID: false for null and for strings shorter than 36 characters;
   * otherwise isUUID of the first 36.
   */
  function StartsWithUuid(s: Option<string>, fromString: string -> Option<Uuid>): (r: bool)
    ensures r <==> s.Some? && |s.value| >= TEXT_LENGTH && Canonical(s.value[..TEXT_LENGTH])
                    && fromString(s.value[..TEXT_LENGTH]).Some?
  {
    if s.None? then false
    else if |s.value| < TEXT_LENGTH then false
    else IsUuid(Some(s.value[..TEXT_LENGTH]), fromString)
  }

  /**
   * tryExtractUUID(s): null for null and for strings shorter than 36 characters;
   * otherwise tryGetUUID of the first 36.
   */
  function TryExtractUuid(s: Option<string>, fromString: string -> Option<Uuid>): (r: Option<Uuid>)
    ensures r == if s.Some? && |s.value| >= TEXT_LENGTH && Canonical(s.value[..TEXT_LENGTH])
                 then fromString(s.value[..TEXT_LENGTH]) else None
  {
    if s.None? then None
    else if |s.value| < TEXT_LENGTH then None
    else
      TryGetUuidShape(Some(s.value[..TEXT_LENGTH]), fromString);
      TryGetUuid(Some(s.value[..TEXT_LENGTH]), fromString)
  }

  /**
   * tryExtractUUID(s, offset): null for null; null when s.length() - offset, as a
   * wrapping Java int, is below 36; otherwise tryGetUUID of the 36 characters from
   * offset, where substring throws for a negative offset.
   */
  function TryExtractUuidAt(s: Option<string>, offset: int, fromString: string -> Option<Uuid>)
    : (r: Result<Option<Uuid>, Exception>)
    requires IsInt32(offset) && (s.Some? ==> |s.value| < TWO_31)
    ensures r.Failure? <==> s.Some? && offset < 0 && TEXT_LENGTH <= |s.value| - offset < TWO_31
    ensures r.Failure? ==> r.error == StringIndexOutOfBounds
    ensures s.None? || Wrap32(|s.value| - offset) < TEXT_LENGTH ==> r == Success(None)
    ensures 0 <= offset ==> r == Success(
      if s.Some? && offset + TEXT_LENGTH <= |s.value| then TryGetUuid(Some(s.value[offset..offset + TEXT_LENGTH]), fromString)
      else None)
  {
    if s.None? then Success(None)
    else if Wrap32(|s.value| - offset) < TEXT_LENGTH then Success(None)
    else if offset < 0 then Failure(StringIndexOutOfBounds)
    else Success(TryGetUuid(Some(s.value[offset..offset + TEXT_LENGTH]), fromString))
  }

  /** Whatever follows the first 36 characters, they alone decide tryExtractUUID and startsWithUUID. */
  lemma PrefixDecides(head: string, rest: string, fromString: string -> Option<Uuid>)
    requires |head| == TEXT_LENGTH
    ensures TryExtractUuid(Some(head + rest), fromString) == TryGetUuid(Some(head), fromString)
    ensures StartsWithUuid(Some(head + rest), fromString) == IsUuid(Some(head), fromString)
  {
    assert (head + rest)[..TEXT_LENGTH] == head;
    TryGetUuidShape(Some(head), fromString);
  }

  /** tryExtractUUID(s, 0) is tryExtractUUID(s). */
  lemma ExtractAtZero(s: Option<string>, fromString: string -> Option<Uuid>)
    requires s.Some? ==> |s.value| < TWO_31
    ensures TryExtractUuidAt(s, 0, fromString) == Success(TryExtractUuid(s, fromString))
  {
    if s.Some? && |s.value| >= TEXT_LENGTH {
      assert s.value[0..TEXT_LENGTH] == s.value[..TEXT_LENGTH];
      TryGetUuidShape(Some(s.value[..TEXT_LENGTH]), fromString);
    }
  }

  /** The 36 characters after a prefix of length offset decide tryExtractUUID(s, offset). */
  lemma ExtractAtWindow(prefix: string, window: string, rest: string, fromString: string -> Option<Uuid>)
    requires |window| == TEXT_LENGTH && |prefix + window + rest| < TWO_31
    ensures TryExtractUuidAt(Some(prefix + window + rest), |prefix|, fromString)
         == Success(TryGetUuid(Some(window), fromString))
  {
    var s := prefix + window + rest;
    assert s[|prefix|..|prefix| + TEXT_LENGTH] == window;
  }

  /** The text of MIN_TIME_UUID. */
  const MIN_TIME_TEXT := "00000000-0000-1000-8000-000000000000"

  /** The text of MIN_TIME_UUID has the canonical shape, so tryGetUUID hands it to fromString. */
  lemma MinTimeTextAccepted(fromString: string -> Option<Uuid>)
    ensures Canonical(MIN_TIME_TEXT)
    ensures TryGetUuid(Some(MIN_TIME_TEXT), fromString) == fromString(MIN_TIME_TEXT)
  {
    HyphenatedSplit(MIN_TIME_TEXT);
    assert WellSized(Split(MIN_TIME_TEXT));
  }

  /**
   * Each hyphen of the text of MIN_TIME_UUID moved one place to the left, and the text
   * one character short or long: none is accepted, whatever fromString would say.
   */
  lemma MalformedTextRejected(fromString: string -> Option<Uuid>)
    ensures TryGetUuid(Some("0000000-00000-1000-8000-000000000000"), fromString).None?
    ensures TryGetUuid(Some("00000000-000-01000-8000-000000000000"), fromString).None?
    ensures TryGetUuid(Some("00000000-0000-100-08000-000000000000"), fromString).None?
    ensures TryGetUuid(Some("00000000-0000-1000-800-0000000000000"), fromString).None?
    ensures TryGetUuid(Some(MIN_TIME_TEXT[..TEXT_LENGTH - 1]), fromString).None?
    ensures TryGetUuid(Some(MIN_TIME_TEXT + "0"), fromString).None?
  {
  }
}
