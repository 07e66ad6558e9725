/** The JSON objects carried in UDP datagrams, as far as they are flat objects of plain
    unescaped string fields. */
module UdpPayload {
  import opened Options
  import opened Text
  import opened SessionId

  datatype Field = Field(key: string, value: string)

  predicate IsPlain(c: char) {
    ' ' <= c <= '~' && c != '"' && c != '\\'
  }

  predicate AllPlain(s: string) {
    forall i :: 0 <= i < |s| ==> IsPlain(s[i])
  }

  ghost predicate PlainFields(fs: seq<Field>) {
    forall i :: 0 <= i < |fs| ==> AllPlain(fs[i].key) && AllPlain(fs[i].value)
  }

  // ----- writing ------------------------------------------------------------------------

  function Quote(s: string): string {
    "\"" + s + "\""
  }

  function EncodeField(f: Field): string {
    Quote(f.key) + ":" + Quote(f.value)
  }

  /** The fields up to and with the closing brace. */
  function EncodeFields(fs: seq<Field>): string
    requires fs != []
  {
    EncodeField(fs[0]) + if |fs| == 1 then "}" else "," + EncodeFields(fs[1..])
  }

  function EncodeObject(fs: seq<Field>): string {
    if fs == [] then "{}" else "{" + EncodeFields(fs)
  }

  // ----- reading ------------------------------------------------------------------------

  /** A string literal at the front: its content and what follows. */
  function TakeString(s: string): (r: Option<(string, string)>)
    ensures r.Some? ==> |r.value.1| < |s|
  {
    if s == "" || s[0] != '"' then None
    else
      var i := IndexOf(s[1..], '"');
      if i == |s[1..]| || !AllPlain(s[1..][..i]) then None
      else Some((s[1..][..i], s[1..][i + 1..]))
  }

  function TakeField(s: string): (r: Option<(Field, string)>)
    ensures r.Some? ==> |r.value.1| < |s|
  {
    var (key, r1) :- TakeString(s);
    if r1 == "" || r1[0] != ':' then None
    else
      var (value, r2) :- TakeString(r1[1..]);
      Some((Field(key, value), r2))
  }

  function ParseFields(s: string): Option<seq<Field>>
    decreases |s|
  {
    var (f, r) :- TakeField(s);
    if r == "}" then Some([f])
    else if r == "" || r[0] != ',' then None
    else
      var rest :- ParseFields(r[1..]);
      Some([f] + rest)
  }

  function ParseObject(s: string): Option<seq<Field>> {
    if s == "{}" then Some([])
    else if s == "" || s[0] != '{' then None
    else ParseFields(s[1..])
  }

  lemma TakesQuoted(x: string, rest: string)
    requires AllPlain(x)
    ensures TakeString(Quote(x) + rest) == Some((x, rest))
  {
    var s := Quote(x) + rest;
    var t := s[1..];
    assert t == x + "\"" + rest;
    assert t[..|x|] == x && t[|x|] == '"' && t[|x| + 1..] == rest;
    IndexOfIs(t, '"', |x|);
  }

  lemma TakenIsQuoted(s: string)
    requires TakeString(s).Some?
    ensures AllPlain(TakeString(s).value.0) && s == Quote(TakeString(s).value.0) + TakeString(s).value.1
  {
    hide AllPlain, IndexOf;
    var t := s[1..];
    var i := IndexOf(t, '"');
    var x, rest := t[..i], t[i + 1..];
    assert t[i] == '"' && t == x + "\"" + rest;
    assert s == "\"" + t;
  }

  lemma TakesField(f: Field, tail: string)
    requires AllPlain(f.key) && AllPlain(f.value)
    ensures TakeField(EncodeField(f) + tail) == Some((f, tail))
  {
    var r1 := ":" + Quote(f.value) + tail;
    assert EncodeField(f) + tail == Quote(f.key) + r1;
    TakesQuoted(f.key, r1);
    assert r1[0] == ':' && r1[1..] == Quote(f.value) + tail;
    TakesQuoted(f.value, tail);
  }

  lemma FieldBytes(f: Field, r: string)
    ensures Quote(f.key) + (":" + (Quote(f.value) + r)) == EncodeField(f) + r
  {
  }

  lemma TakenIsField(s: string)
    requires TakeField(s).Some?
    ensures var (f, r) := TakeField(s).value;
            AllPlain(f.key) && AllPlain(f.value) && s == EncodeField(f) + r
  {
    hide TakeString, Quote, AllPlain, EncodeField;
    var (key, r1) := TakeString(s).value;
    var (value, r2) := TakeString(r1[1..]).value;
    TakenIsQuoted(s);
    TakenIsQuoted(r1[1..]);
    assert r1 == ":" + r1[1..];
    FieldBytes(Field(key, value), r2);
  }

  lemma FieldsCons(f: Field, rest: seq<Field>)
    requires AllPlain(f.key) && AllPlain(f.value) && rest != [] && PlainFields(rest)
    ensures PlainFields([f] + rest) && EncodeFields([f] + rest) == EncodeField(f) + ("," + EncodeFields(rest))
  {
    assert ([f] + rest)[1..] == rest;
  }

  lemma {:induction false} FieldsReadBack(fs: seq<Field>)
    requires fs != [] && PlainFields(fs)
    ensures ParseFields(EncodeFields(fs)) == Some(fs)
  {
    hide EncodeField, TakeField, AllPlain;
    if |fs| == 1 {
      TakesField(fs[0], "}");
      assert fs == [fs[0]];
    } else {
      var tail := "," + EncodeFields(fs[1..]);
      TakesField(fs[0], tail);
      FieldsReadBack(fs[1..]);
      assert tail[0] == ',' && tail[1..] == EncodeFields(fs[1..]);
      assert fs == [fs[0]] + fs[1..];
    }
  }

  lemma {:induction false} FieldsSound(s: string)
    requires ParseFields(s).Some?
    ensures var fs := ParseFields(s).value; fs != [] && PlainFields(fs) && EncodeFields(fs) == s
    decreases |s|
  {
    hide TakeField, EncodeField, AllPlain;
    var (f, r) := TakeField(s).value;
    TakenIsField(s);
    if r != "}" {
      hide EncodeFields, PlainFields;
      FieldsSound(r[1..]);
      FieldsCons(f, ParseFields(r[1..]).value);
      assert r == "," + r[1..];
    }
  }

  /** The reader accepts exactly what can be written, and reads it back. */
  lemma ObjectExact(s: string, fs: seq<Field>)
    ensures ParseObject(s) == Some(fs) <==> PlainFields(fs) && EncodeObject(fs) == s
  {
    if PlainFields(fs) && EncodeObject(fs) == s && fs != [] {
      FieldsReadBack(fs);
      assert s[1..] == EncodeFields(fs);
      assert EncodeFields(fs)[0] == '"';
      assert s[1] == '"';
    }
    if ParseObject(s) == Some(fs) && fs != [] {
      FieldsSound(s[1..]);
      assert s == "{" + s[1..];
    }
  }

  // ----- the two fields that matter -----------------------------------------------------

  function Lower(c: char): char {
    if 'A' <= c <= 'Z' then (c as int + 32) as char else c
  }

  /** Field names are matched without regard to case. */
  predicate SameName(key: string, name: string) {
    |key| == |name| && forall i :: 0 <= i < |name| ==> Lower(key[i]) == Lower(name[i])
  }

  /** The last field of that name wins; a missing one reads as "". */
  function Value(fs: seq<Field>, name: string): string {
    if fs == [] then ""
    else if SameName(fs[|fs| - 1].key, name) then fs[|fs| - 1].value
    else Value(fs[..|fs| - 1], name)
  }

  /** The session and kind of a datagram with a valid session. */
  function ParseUdpPayload(payload: string): (r: Option<(string, string)>)
    ensures r.Some? ==> IsSessionId(r.value.0)
  {
    var fs :- ParseObject(payload);
    if !IsSessionId(Value(fs, "session")) then None
    else Some((Value(fs, "session"), Value(fs, "kind")))
  }

  /** A field of that name, given in lower and in upper case. */
  predicate IsNamed(f: Field, lower: string, upper: string)
    requires |lower| == |upper|
  {
    |f.key| == |lower| && forall i :: 0 <= i < |lower| ==> f.key[i] == lower[i] || f.key[i] == upper[i]
  }

  /** The value of the last field of that name, or "" if there is none. */
  ghost predicate IsLastValue(fs: seq<Field>, lower: string, upper: string, value: string)
    requires |lower| == |upper|
  {
    || (value == "" && forall i :: 0 <= i < |fs| ==> !IsNamed(fs[i], lower, upper))
    || exists i :: 0 <= i < |fs| && IsNamed(fs[i], lower, upper) && fs[i].value == value
         && forall j :: i < j < |fs| ==> !IsNamed(fs[j], lower, upper)
  }

  lemma {:induction false} ValueIsLast(fs: seq<Field>, name: string, lower: string, upper: string, value: string)
    requires |lower| == |upper|
    requires forall f: Field :: SameName(f.key, name) <==> IsNamed(f, lower, upper)
    ensures Value(fs, name) == value <==> IsLastValue(fs, lower, upper, value)
  {
    hide SameName, IsNamed;
    if fs != [] {
      var init, last := fs[..|fs| - 1], fs[|fs| - 1];
      assert forall i :: 0 <= i < |init| ==> fs[i] == init[i];
      assert SameName(last.key, name) <==> IsNamed(last, lower, upper);
      if !IsNamed(last, lower, upper) {
        ValueIsLast(init, name, lower, upper, value);
      }
    }
  }

  lemma NamesFold(f: Field)
    ensures SameName(f.key, "session") <==> IsNamed(f, "session", "SESSION")
    ensures SameName(f.key, "kind") <==> IsNamed(f, "kind", "KIND")
  {
    FoldsTo(f, "session", "SESSION");
    FoldsTo(f, "kind", "KIND");
  }

  lemma FoldsTo(f: Field, lower: string, upper: string)
    requires |lower| == |upper|
    requires forall i :: 0 <= i < |lower| ==> 'a' <= lower[i] <= 'z' && upper[i] as int == lower[i] as int - 32
    ensures SameName(f.key, lower) <==> IsNamed(f, lower, upper)
  {
    forall i | 0 <= i < |lower| && |f.key| == |lower|
      ensures Lower(f.key[i]) == Lower(lower[i]) <==> f.key[i] == lower[i] || f.key[i] == upper[i]
    {
      Folds(f.key[i], lower[i], upper[i]);
    }
  }

  lemma Folds(c: char, lower: char, upper: char)
    requires 'a' <= lower <= 'z' && upper as int == lower as int - 32
    ensures Lower(c) == Lower(lower) <==> c == lower || c == upper
  {
  }

  /** What a datagram decodes to, whatever fields it holds, in whatever order and number: the
      last session and the last kind, their names in any case, if the session is valid. */
  lemma PayloadExactly(fs: seq<Field>, id: string, kind: string)
    requires PlainFields(fs)
    ensures ParseUdpPayload(EncodeObject(fs)) == Some((id, kind)) <==>
            && IsSessionId(id)
            && IsLastValue(fs, "session", "SESSION", id) && IsLastValue(fs, "kind", "KIND", kind)
  {
    hide SameName, IsNamed, ParseObject, EncodeObject, IsSessionId, IsLastValue, Value;
    ObjectExact(EncodeObject(fs), fs);
    forall f: Field ensures SameName(f.key, "session") <==> IsNamed(f, "session", "SESSION") {
      NamesFold(f);
    }
    forall f: Field ensures SameName(f.key, "kind") <==> IsNamed(f, "kind", "KIND") {
      NamesFold(f);
    }
    ValueIsLast(fs, "session", "session", "SESSION", Value(fs, "session"));
    ValueIsLast(fs, "session", "session", "SESSION", id);
    ValueIsLast(fs, "kind", "kind", "KIND", Value(fs, "kind"));
    ValueIsLast(fs, "kind", "kind", "KIND", kind);
  }

  /** The datagrams the client sends. */
  function Request(id: string, kind: string): string {
    "{\"session\":\"" + id + "\",\"kind\":\"" + kind + "\"}"
  }

  lemma SessionIdIsPlain(id: string)
    requires IsSessionId(id)
    ensures AllPlain(id)
  {
  }

  lemma TwoFields(id: string, kind: string, more: seq<Field>)
    requires forall i :: 0 <= i < |more| ==> more[i].key == "data"
    ensures Value([Field("session", id), Field("kind", kind)] + more, "session") == id
    ensures Value([Field("session", id), Field("kind", kind)] + more, "kind") == kind
  {
    var fs := [Field("session", id), Field("kind", kind)] + more;
    assert |"session"| == 7 && |"kind"| == 4 && |"data"| == 4;
    assert Lower("data"[0]) != Lower("kind"[0]);
    if more == [] {
      assert fs == [Field("session", id), Field("kind", kind)];
      assert fs[..1] == [Field("session", id)];
    } else {
      assert fs[..|fs| - 1] == [Field("session", id), Field("kind", kind)] + more[..|more| - 1];
      TwoFields(id, kind, more[..|more| - 1]);
    }
  }

  lemma SessionField(id: string)
    ensures EncodeField(Field("session", id)) == "\"session\":\"" + id + "\""
  {
    assert Quote("session") + ":" + "\"" == "\"session\":\"";
    assert EncodeField(Field("session", id)) == (Quote("session") + ":" + "\"") + id + "\"";
  }

  lemma KindField(kind: string)
    ensures EncodeField(Field("kind", kind)) == "\"kind\":\"" + kind + "\""
  {
    assert Quote("kind") + ":" + "\"" == "\"kind\":\"";
    assert EncodeField(Field("kind", kind)) == (Quote("kind") + ":" + "\"") + kind + "\"";
  }

  lemma RequestIsObject(id: string, kind: string)
    ensures Request(id, kind) == EncodeObject([Field("session", id), Field("kind", kind)])
  {
    var f, g := Field("session", id), Field("kind", kind);
    SessionField(id);
    KindField(kind);
    assert [f, g][1..] == [g];
    hide EncodeField;
    assert EncodeFields([g]) == EncodeField(g) + "}";
    assert EncodeObject([f, g]) == "{" + (EncodeField(f) + ("," + (EncodeField(g) + "}")));
    assert "{" + "\"session\":\"" == "{\"session\":\"";
    assert "\"" + "," + "\"kind\":\"" == "\",\"kind\":\"";
    assert "\"" + "}" == "\"}";
  }

  /** A request decodes to the session and kind it was made for. */
  lemma RequestReadsBack(id: string, kind: string)
    requires IsSessionId(id) && AllPlain(kind)
    ensures ParseUdpPayload(Request(id, kind)) == Some((id, kind))
  {
    var fs := [Field("session", id), Field("kind", kind)];
    SessionIdIsPlain(id);
    assert AllPlain("session") && AllPlain("kind");
    hide AllPlain, EncodeObject, ParseObject, Request;
    RequestIsObject(id, kind);
    ObjectExact(Request(id, kind), fs);
    TwoFields(id, kind, []);
    assert fs + [] == fs;
  }
}
