/**
 The agent identity name and its parser. Every character of a string stands for
 one byte of the Go string.
 */
module AgentNames {
  import opened Wrappers

  /** A UUID: sixteen bytes. */
  type Uuid = b: seq<nat> | |b| == 16 && forall i :: 0 <= i < 16 ==> b[i] < 256
    witness seq(16, _ => 0)

  const AGENT_PREFIX := "agent-"
  const UUID_LENGTH := 36

  // ---------------------------------------------------------------- text form, section 4 of RFC 9562

  function HexChar(v: nat): char
    requires v < 16
  {
    if v < 10 then '0' + v as char else 'a' + (v - 10) as char
  }

  /** Upper- and lower-case digits are both read. */
  function HexValue(c: char): Option<nat> {
    if '0' <= c <= '9' then Some(c as nat - '0' as nat)
    else if 'a' <= c <= 'f' then Some(c as nat - 'a' as nat + 10)
    else if 'A' <= c <= 'F' then Some(c as nat - 'A' as nat + 10)
    else None
  }

  /** Where the two digits of each byte stand. */
  function Position(i: nat): nat
    requires i < 16
  {
    2 * i + (if i < 4 then 0 else if i < 6 then 1 else if i < 8 then 2 else if i < 10 then 3 else 4)
  }

  predicate IsHyphenPosition(p: nat) {
    p == 8 || p == 13 || p == 18 || p == 23
  }

  /** The byte whose digits include position `p`. */
  function ByteAt(p: nat): (i: nat)
    requires p < 36 && !IsHyphenPosition(p)
    ensures i < 16 && (p == Position(i) || p == Position(i) + 1)
  {
    (p - (if p < 8 then 0 else if p < 13 then 1 else if p < 18 then 2 else if p < 23 then 3 else 4)) / 2
  }

  function UuidChar(uuid: Uuid, p: nat): char
    requires p < 36
  {
    if IsHyphenPosition(p) then '-'
    else
      var i := ByteAt(p);
      if p == Position(i) then HexChar(uuid[i] / 16) else HexChar(uuid[i] % 16)
  }

  /** `UUID.String`: lower-case digits in groups of 8-4-4-4-12. */
  function UuidText(uuid: Uuid): (text: string)
    ensures |text| == UUID_LENGTH
  {
    seq(36, p requires 0 <= p < 36 => UuidChar(uuid, p))
  }

  function HexByte(text: string, p: nat): Option<nat>
    requires p + 1 < |text|
  {
    var high, low := HexValue(text[p]), HexValue(text[p + 1]);
    if high.None? || low.None? then None else Some(16 * high.value + low.value)
  }

  /** `uuid.Parse` of a 36-byte string: four hyphens and sixteen digit pairs. */
  function ParseUuid(text: string): Option<Uuid>
    requires |text| == UUID_LENGTH
  {
    if text[8] != '-' || text[13] != '-' || text[18] != '-' || text[23] != '-' then None
    else if exists i :: 0 <= i < 16 && HexByte(text, Position(i)).None? then None
    else Some(seq(16, i requires 0 <= i < 16 => HexByte(text, Position(i)).value))
  }

  function Lower(c: char): char {
    if 'A' <= c <= 'Z' then c + 32 as char else c
  }

  function LowerText(text: string): string {
    seq(|text|, i requires 0 <= i < |text| => Lower(text[i]))
  }

  lemma HexPair(text: string, p: nat, b: nat)
    requires p + 1 < |text| && b < 256
    ensures HexByte(text, p) == Some(b) <==>
      Lower(text[p]) == HexChar(b / 16) && Lower(text[p + 1]) == HexChar(b % 16)
  {
  }

  /** A 36-byte string parses to `uuid` exactly when, up to the case of its
      digits, it is the text form of `uuid`. */
  lemma ParseMeaning(text: string, uuid: Uuid)
    requires |text| == UUID_LENGTH
    ensures ParseUuid(text) == Some(uuid) <==> LowerText(text) == UuidText(uuid)
  {
    if ParseUuid(text) == Some(uuid) {
      forall p | 0 <= p < 36 ensures LowerText(text)[p] == UuidText(uuid)[p] {
        ParsedChar(text, uuid, p);
      }
    }
    if LowerText(text) == UuidText(uuid) {
      TextParses(text, uuid);
    }
  }

  lemma ParsedChar(text: string, uuid: Uuid, p: nat)
    requires |text| == UUID_LENGTH && p < 36 && ParseUuid(text) == Some(uuid)
    ensures Lower(text[p]) == UuidChar(uuid, p)
  {
    if !IsHyphenPosition(p) {
      var i := ByteAt(p);
      assert HexByte(text, Position(i)) == Some(uuid[i]);
      HexPair(text, Position(i), uuid[i]);
    }
  }

  lemma TextParses(text: string, uuid: Uuid)
    requires |text| == UUID_LENGTH && LowerText(text) == UuidText(uuid)
    ensures ParseUuid(text) == Some(uuid)
  {
    forall p | 0 <= p < 36 ensures Lower(text[p]) == UuidChar(uuid, p) {
      assert LowerText(text)[p] == UuidText(uuid)[p];
    }
    assert Lower(text[8]) == '-' && Lower(text[13]) == '-' && Lower(text[18]) == '-' && Lower(text[23]) == '-';
    forall i | 0 <= i < 16 ensures HexByte(text, Position(i)) == Some(uuid[i]) {
      PairPositions(uuid, i);
      HexPair(text, Position(i), uuid[i]);
    }
    var parsed := seq(16, i requires 0 <= i < 16 => HexByte(text, Position(i)).value);
    assert parsed == uuid;
  }

  lemma PairPositions(uuid: Uuid, i: nat)
    requires i < 16
    ensures UuidChar(uuid, Position(i)) == HexChar(uuid[i] / 16)
    ensures UuidChar(uuid, Position(i) + 1) == HexChar(uuid[i] % 16)
  {
  }

  // ---------------------------------------------------------------- the name

  /** The name given at creation: the agent's UUID and a suffix. */
  function AgentName(agentId: Uuid, suffix: string): string {
    AGENT_PREFIX + UuidText(agentId) + "-" + suffix
  }

  function ParseAgentIdentityName(value: string): Option<Uuid> {
    if !(AGENT_PREFIX <= value) then None
    else
      var trimmed := value[|AGENT_PREFIX|..];
      if |trimmed| < UUID_LENGTH then None
      else if |trimmed| > UUID_LENGTH && trimmed[UUID_LENGTH] != '-' then None
      else ParseUuid(trimmed[..UUID_LENGTH])
  }

  /** `value` is the prefix, a text form of `agentId`, and then its end or a hyphen. */
  ghost predicate Names(value: string, agentId: Uuid) {
    exists text, rest :: IsNameOf(value, agentId, text, rest)
  }

  ghost predicate IsNameOf(value: string, agentId: Uuid, text: string, rest: string) {
    && value == AGENT_PREFIX + text + rest
    && |text| == UUID_LENGTH && LowerText(text) == UuidText(agentId)
    && (rest == "" || rest[0] == '-')
  }

  /** The parser accepts exactly the names of an agent, and returns that agent. */
  lemma ParserMeaning(value: string, agentId: Uuid)
    ensures ParseAgentIdentityName(value) == Some(agentId) <==> Names(value, agentId)
  {
    if ParseAgentIdentityName(value) == Some(agentId) {
      var text, rest := value[6..42], value[42..];
      assert value[6..][..36] == text;
      ParseMeaning(text, agentId);
      assert value == AGENT_PREFIX + text + rest;
      assert IsNameOf(value, agentId, text, rest);
    }
    if Names(value, agentId) {
      var text, rest :| IsNameOf(value, agentId, text, rest);
      assert value[6..] == text + rest;
      assert value[6..][..36] == text;
      ParseMeaning(text, agentId);
    }
  }

  /** The name tells both the agent and the suffix. */
  lemma AgentNamesAreDistinct(a: Uuid, suffix: string, b: Uuid, other: string)
    requires AgentName(a, suffix) == AgentName(b, other)
    ensures a == b && suffix == other
  {
    AgentNameRoundTrip(a, suffix);
    AgentNameRoundTrip(b, other);
    assert AgentName(a, suffix)[43..] == suffix && AgentName(b, other)[43..] == other;
  }

  /** Every name built at creation gives its agent back. */
  lemma AgentNameRoundTrip(agentId: Uuid, suffix: string)
    ensures ParseAgentIdentityName(AgentName(agentId, suffix)) == Some(agentId)
  {
    var text := UuidText(agentId);
    assert forall p :: 0 <= p < 36 ==> Lower(UuidChar(agentId, p)) == UuidChar(agentId, p);
    assert LowerText(text) == text;
    assert AgentName(agentId, suffix) == AGENT_PREFIX + text + ("-" + suffix);
    assert IsNameOf(AgentName(agentId, suffix), agentId, text, "-" + suffix);
    ParserMeaning(AgentName(agentId, suffix), agentId);
  }
}
