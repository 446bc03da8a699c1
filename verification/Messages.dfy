/** Messages of the agent and their form on the message bus. */
module Messages {
  import Text

  datatype Status = StatusOk | StatusError

  datatype Meta = Meta(
    replyTo: string, from: string, to: string, subject: string, status: Status, timeout: string,
    correlationId: string)

  /** The content of a `disco::Message`. */
  datatype Packet = Packet(meta: Meta, userData: string)

  /** The keys of the bus's meta data. */
  datatype Key = TO | FROM | REPLY_TO | SUBJECT | TIMEOUT | CORRELATION_ID | STATUS | Other(name: string)

  /** A `messagebus::Message`. */
  datatype Wire = Wire(metaData: map<Key, string>, userData: seq<string>)

  function StatusText(s: Status): string {
    match s case StatusOk => "ok" case StatusError => "ko"
  }

  /** The first word of a text. */
  function FirstWord(s: string): string {
    if s == "" then ""
    else if Text.IsSpace(s[0]) then FirstWord(s[1..])
    else WordAt(s)
  }

  function WordAt(s: string): string {
    if s == "" || Text.IsSpace(s[0]) then "" else [s[0]] + WordAt(s[1..])
  }

  /** Reading a status: another word than the two leaves it as it was. */
  function ReadStatus(s: string, before: Status): Status {
    var word := FirstWord(s);
    if word == "ok" then StatusOk else if word == "ko" then StatusError else before
  }

  /** `value`: a lookup with a default. */
  function Value(m: map<Key, string>, key: Key, default: string := ""): string {
    if key in m then m[key] else default
  }

  function FromWire(w: Wire): Packet {
    var m := w.metaData;
    Packet(
      Meta(Value(m, REPLY_TO), Value(m, FROM), Value(m, TO), Value(m, SUBJECT),
           ReadStatus(Value(m, STATUS, "ok"), StatusOk), Value(m, TIMEOUT), Value(m, CORRELATION_ID)),
      if w.userData == [] then "" else w.userData[0])
  }

  function ToWire(p: Packet): Wire {
    Wire(
      map[TO := p.meta.to, FROM := p.meta.from, REPLY_TO := p.meta.replyTo, SUBJECT := p.meta.subject,
          TIMEOUT := p.meta.timeout, CORRELATION_ID := p.meta.correlationId, STATUS := StatusText(p.meta.status)],
      [p.userData])
  }

  lemma StatusRoundTrip(s: Status, before: Status)
    ensures ReadStatus(StatusText(s), before) == s
  {
    assert "ok"[1..] == "k" && "k"[1..] == "" && WordAt("k") == "k" && WordAt("ok") == "ok";
    assert "ko"[1..] == "o" && "o"[1..] == "" && WordAt("o") == "o" && WordAt("ko") == "ko";
  }

  /** A message survives the bus, whatever is in it. */
  lemma WireRoundTrip(p: Packet)
    ensures FromWire(ToWire(p)) == p
  {
    StatusRoundTrip(p.meta.status, StatusOk);
  }

  /** Which datum goes under which key. */
  lemma WireFields(p: Packet)
    ensures var w := ToWire(p);
            && w.userData == [p.userData]
            && w.metaData.Keys == {TO, FROM, REPLY_TO, SUBJECT, TIMEOUT, CORRELATION_ID, STATUS}
            && w.metaData[TO] == p.meta.to && w.metaData[FROM] == p.meta.from
            && w.metaData[REPLY_TO] == p.meta.replyTo && w.metaData[SUBJECT] == p.meta.subject
            && w.metaData[TIMEOUT] == p.meta.timeout && w.metaData[CORRELATION_ID] == p.meta.correlationId
            && w.metaData[STATUS] == (if p.meta.status == StatusOk then "ok" else "ko")
  {}

  /** What is read of a message from the bus: the texts under the same keys, empty ones where there are
      none, and the first user datum. */
  lemma FromWireFields(w: Wire)
    ensures var p, m := FromWire(w), w.metaData;
            && (TO in m ==> p.meta.to == m[TO]) && (TO !in m ==> p.meta.to == "")
            && (FROM in m ==> p.meta.from == m[FROM]) && (FROM !in m ==> p.meta.from == "")
            && (REPLY_TO in m ==> p.meta.replyTo == m[REPLY_TO]) && (REPLY_TO !in m ==> p.meta.replyTo == "")
            && (SUBJECT in m ==> p.meta.subject == m[SUBJECT]) && (SUBJECT !in m ==> p.meta.subject == "")
            && (TIMEOUT in m ==> p.meta.timeout == m[TIMEOUT]) && (TIMEOUT !in m ==> p.meta.timeout == "")
            && (CORRELATION_ID in m ==> p.meta.correlationId == m[CORRELATION_ID])
            && (CORRELATION_ID !in m ==> p.meta.correlationId == "")
            && (w.userData != [] ==> p.userData == w.userData[0]) && (w.userData == [] ==> p.userData == "")
  {}

  /** The word is what is between the white space at the beginning and the next one. */
  ghost predicate IsFirstWord(s: string, word: string) {
    && (forall i :: 0 <= i < |word| ==> !Text.IsSpace(word[i]))
    && exists a, rest :: Around(s, a, word, rest)
  }

  ghost predicate Around(s: string, a: string, word: string, rest: string) {
    s == a + word + rest && Text.Blank(a) && (rest != "" ==> word != "" && Text.IsSpace(rest[0]))
  }

  lemma {:induction false} FirstWordMeans(s: string)
    ensures IsFirstWord(s, FirstWord(s))
  {
    var word := FirstWord(s);
    if s != "" && Text.IsSpace(s[0]) {
      FirstWordMeans(s[1..]);
      var a, rest :| Around(s[1..], a, word, rest);
      assert s == [s[0]] + s[1..] && [s[0]] + (a + word + rest) == ([s[0]] + a) + word + rest;
      assert Around(s, [s[0]] + a, word, rest);
    } else {
      var rest := WordEnds(s);
      assert s != "" ==> WordAt(s)[0] == s[0];
      assert Around(s, "", word, rest);
    }
  }

  lemma {:induction false} WordEnds(s: string) returns (rest: string)
    ensures s == WordAt(s) + rest && (rest != "" ==> Text.IsSpace(rest[0]))
    ensures forall i :: 0 <= i < |WordAt(s)| ==> !Text.IsSpace(WordAt(s)[i])
  {
    rest := s;
    if s != "" && !Text.IsSpace(s[0]) {
      rest := WordEnds(s[1..]);
      assert s == [s[0]] + s[1..];
    }
  }

  /** A message without status is read as a good one, and unknown words count as good as well. */
  lemma StatusDefaults(w: Wire)
    ensures FromWire(w).meta.status == StatusError <==> STATUS in w.metaData && FirstWord(w.metaData[STATUS]) == "ko"
  {}
}
