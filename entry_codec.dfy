/** The serialised form in which the store keeps an entry: the JSON object
    `{"id":"…","title":"…","description":"…","done":true}` that marshalling a
    four-field entry yields, kept as text. Strings are quoted with `"` and `\`
    escaped by a backslash. The decoder accepts exactly the objects the
    encoder writes and reports anything else as unreadable. */
module EntryCodec {
  import opened Wrappers
  import opened Domain

  type Payload = seq<char>

  const IdKey: Payload := "{\"id\":\""
  const TitleKey: Payload := ",\"title\":\""
  const DescriptionKey: Payload := ",\"description\":\""
  const DoneKey: Payload := ",\"done\":"
  const Quote: Payload := "\""

  /** The body of a JSON string literal for `s` (without its quotes). */
  function Escape(s: string): Payload
  {
    if s == [] then []
    else (if s[0] == '"' || s[0] == '\\' then ['\\', s[0]] else [s[0]]) + Escape(s[1..])
  }

  function EncodeBool(b: bool): Payload
  {
    if b then "true}" else "false}"
  }

  /** json.Marshal of an entry: the fields in declaration order under their
      lower-case tags, no white space. Decoding the payload gives the entry
      back, so what Save and Update store, Get reads as it was written. */
  function Encode(e: Entry): (p: Payload)
    ensures Decode(p) == Some(e)
  {
    var tail4 := DoneKey + EncodeBool(e.done);
    var tail3 := DescriptionKey + (Escape(e.description) + (Quote + tail4));
    var tail2 := TitleKey + (Escape(e.title) + (Quote + tail3));
    var p1 := Escape(e.id) + (Quote + tail2);
    ExpectPrefix(IdKey, p1);
    ReadEscaped(e.id, tail2);
    ExpectPrefix(TitleKey, Escape(e.title) + (Quote + tail3));
    ReadEscaped(e.title, tail3);
    ExpectPrefix(DescriptionKey, Escape(e.description) + (Quote + tail4));
    ReadEscaped(e.description, tail4);
    ExpectPrefix(DoneKey, EncodeBool(e.done));
    IdKey + p1
  }

  /** Strips the literal `lit` from the front of `p`. */
  function Expect(p: Payload, lit: Payload): (r: Option<Payload>)
    ensures r.Some? <==> lit <= p
    ensures r.Some? ==> p == lit + r.value
  {
    if lit <= p then Some(p[|lit|..]) else None
  }

  /** Reads the body of a string literal up to and including its closing
      quote; yields the unescaped text and what follows the quote. */
  function ReadString(p: Payload): Option<(string, Payload)>
  {
    if p == [] then None
    else if p[0] == '"' then Some(([], p[1..]))
    else if p[0] == '\\' then
      if |p| >= 2 && (p[1] == '"' || p[1] == '\\') then
        var r :- ReadString(p[2..]);
        Some(([p[1]] + r.0, r.1))
      else None
    else
      var r :- ReadString(p[1..]);
      Some(([p[0]] + r.0, r.1))
  }

  /** json.Unmarshal into an entry; None when the payload is unreadable. */
  function Decode(p: Payload): Option<Entry>
  {
    var p1 :- Expect(p, IdKey);
    var id :- ReadString(p1);
    var p2 :- Expect(id.1, TitleKey);
    var title :- ReadString(p2);
    var p3 :- Expect(title.1, DescriptionKey);
    var description :- ReadString(p3);
    var p4 :- Expect(description.1, DoneKey);
    if p4 == "true}" then Some(Entry(id.0, title.0, description.0, true))
    else if p4 == "false}" then Some(Entry(id.0, title.0, description.0, false))
    else None
  }

  /** Reading back an escaped string stops at its closing quote and returns
      the unescaped text `s`. */
  lemma {:induction false} ReadEscaped(s: string, rest: Payload)
    ensures ReadString(Escape(s) + (Quote + rest)) == Some((s, rest))
  {
    var p := Escape(s) + (Quote + rest);
    if s == [] {
      assert p == Quote + rest;
    } else {
      var head: Payload := if s[0] == '"' || s[0] == '\\' then ['\\', s[0]] else [s[0]];
      var tail := Escape(s[1..]) + (Quote + rest);
      assert p == head + tail;
      ReadEscaped(s[1..], rest);
      if |head| == 2 {
        assert p[2..] == tail;
      } else {
        assert p[1..] == tail;
      }
      assert [s[0]] + s[1..] == s;
    }
  }

  /** Whatever ReadString accepts is an escaped string followed by its quote:
      the string syntax has one spelling per text. */
  lemma {:induction false} ReadStringCanonical(p: Payload)
    requires ReadString(p).Some?
    ensures p == Escape(ReadString(p).value.0) + (Quote + ReadString(p).value.1)
    decreases |p|
  {
    var r := ReadString(p).value;
    if p[0] == '"' {
      assert Escape(r.0) == [];
    } else if p[0] == '\\' {
      ReadStringCanonical(p[2..]);
      var t := ReadString(p[2..]).value;
      assert r.0 == [p[1]] + t.0;
      assert r.0[1..] == t.0;
      assert p == [p[0], p[1]] + p[2..];
    } else {
      ReadStringCanonical(p[1..]);
      var t := ReadString(p[1..]).value;
      assert r.0 == [p[0]] + t.0;
      assert r.0[1..] == t.0;
      assert p == [p[0]] + p[1..];
    }
  }

  /** Stripping a literal from a payload that starts with it leaves the rest. */
  lemma ExpectPrefix(lit: Payload, rest: Payload)
    ensures Expect(lit + rest, lit) == Some(rest)
  {
    assert (lit + rest)[..|lit|] == lit;
    assert (lit + rest)[|lit|..] == rest;
  }

  /** The converse round trip: a readable payload is exactly the encoding of
      what it decodes to. */
  lemma {:induction false} EncodeDecode(p: Payload)
    requires Decode(p).Some?
    ensures Encode(Decode(p).value) == p
  {
    var p1 := Expect(p, IdKey).value;
    ReadStringCanonical(p1);
    var id := ReadString(p1).value;
    var p2 := Expect(id.1, TitleKey).value;
    ReadStringCanonical(p2);
    var title := ReadString(p2).value;
    var p3 := Expect(title.1, DescriptionKey).value;
    ReadStringCanonical(p3);
    var description := ReadString(p3).value;
    var p4 := Expect(description.1, DoneKey).value;
    assert p4 == EncodeBool(Decode(p).value.done);
  }

  /** Distinct entries are stored as distinct payloads. */
  lemma EncodeInjective(a: Entry, b: Entry)
    ensures Encode(a) == Encode(b) <==> a == b
  {
  }
}
