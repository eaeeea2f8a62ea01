/** `parse_generated_response`: the model's markdown reply turned into the
    four-field record shown in the generator's tabs. */
module Response {

  import opened Text
  import opened CodeFence
  import opened Bullets

  /** The `components` dictionary. Its four keys are fixed by the record
      shape, so every parse has exactly these fields, each a string. */
  datatype Components = Components(code: string, overview: string, features: string, extensions: string)
  {
    /** The documentation field filled from the given section's bullets. */
    function Doc(sec: Section): string
    {
      match sec
      case Overview => overview
      case Feature => features
      case Extension => extensions
    }
  }

  /** All fields at their initial value ''. */
  const Empty := Components("", "", "", "")

  /** One documentation field: the captures of its pattern, '\n'-joined. */
  function DocField(reply: string, sec: Section): (field: string)
    ensures Unjoin(field) == FindAll(reply, sec)
  {
    var caps := FindAll(reply, sec);
    UnjoinJoin(caps);
    Join("\n", caps)
  }

  function Parse(reply: string): (c: Components)
    ensures !ContainsFence(c.code)
    ensures forall m :: Leftmost(reply, m) ==> c.code == reply[m.body..m.close]
    ensures (forall m :: !Accepts(reply, m)) ==> c.code == ""
    ensures forall sec :: Unjoin(c.Doc(sec)) == FindAll(reply, sec)
  {
    var code := ExtractCode(reply);
    var c := Components(
      code,
      DocField(reply, Overview),
      DocField(reply, Feature),
      DocField(reply, Extension));
    FieldsReadBack(reply, c);
    c
  }

  /** A record whose documentation fields are the joined captures reads
      back, field by field, to those captures. */
  lemma FieldsReadBack(reply: string, c: Components)
    requires c.overview == DocField(reply, Overview)
    requires c.features == DocField(reply, Feature)
    requires c.extensions == DocField(reply, Extension)
    ensures forall sec :: Unjoin(c.Doc(sec)) == FindAll(reply, sec)
  {
    forall sec
      ensures Unjoin(c.Doc(sec)) == FindAll(reply, sec)
    {
      assert c.Doc(sec) == DocField(reply, sec);
    }
  }

  /** Each documentation field is '' exactly when its marker never starts a
      match, and otherwise its lines are, in order, the per-line leftmost
      captures, each the label followed by a non-empty rest of line. */
  lemma ParseDocs(reply: string, sec: Section)
    ensures Parse(reply).Doc(sec) == "" <==> forall p :: 0 <= p <= |reply| ==> !StartsBullet(reply[p..], sec)
    ensures Unjoin(Parse(reply).Doc(sec)) == PerLine(Split(reply), sec)
    ensures forall i :: 0 <= i < |Unjoin(Parse(reply).Doc(sec))| ==> IsCapture(Unjoin(Parse(reply).Doc(sec))[i], sec)
  {
    var field := Parse(reply).Doc(sec);
    FindAllEmpty(reply, sec);
    FindAllPerLine(reply, sec);
    if field == "" {
      assert Unjoin(field) == [];
    } else {
      assert |Unjoin(field)| >= 1;
    }
  }

  /** A reply with neither a code block nor any bullet leaves every field at
      its default. */
  lemma ParseDefaults(reply: string)
    requires forall m :: !Accepts(reply, m)
    requires forall sec, p :: 0 <= p <= |reply| ==> !StartsBullet(reply[p..], sec)
    ensures Parse(reply) == Empty
  {
    ParseDocs(reply, Overview);
    ParseDocs(reply, Feature);
    ParseDocs(reply, Extension);
  }
}
