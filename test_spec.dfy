/** The stage a package test runs at, with its string codec, and the test
    specification record whose list fields default to empty. */
module TestSpecs {
  import opened Wrappers

  datatype TestStage = Sources | Build | Install

  /** Serialisation writes the lower-case stage name. */
  function Serialize(s: TestStage): (r: string)
    ensures r in {"sources", "build", "install"}
  {
    match s
    case Sources => "sources"
    case Build => "build"
    case Install => "install"
  }

  /** The stage names the error message offers, as written: `source`, where
      the accepted token is `sources`. */
  const LISTED_AS_WRITTEN: seq<string> := ["source", "build", "install"]

  /** The stage names the error message evidently means to offer. */
  const LISTED: seq<string> := ["sources", "build", "install"]

  function InvalidStage(other: string, listed: seq<string>): string
    requires |listed| == 3
  {
    "Invalid test stage '" + other + "', must be one of: " + listed[0] + ", " + listed[1] + ", " + listed[2]
  }

  /** Deserialisation as written: the three serialised names, and any other
      string rejected with a message that lists `source`. */
  function DeserializeAsWritten(t: string): (r: Result<TestStage, string>)
    ensures r.Err? ==> r.error == InvalidStage(t, LISTED_AS_WRITTEN)
  {
    if t == "sources" then Ok(Sources)
    else if t == "build" then Ok(Build)
    else if t == "install" then Ok(Install)
    else Err(InvalidStage(t, LISTED_AS_WRITTEN))
  }

  /** The message as written offers a name that is then rejected. */
  lemma ListedNameRejected()
    ensures "source" in LISTED_AS_WRITTEN
    ensures DeserializeAsWritten("source").Err?
  {
    assert LISTED_AS_WRITTEN[0] == "source";
  }

  /** Deserialisation with the message naming the accepted tokens. */
  function Deserialize(t: string): (r: Result<TestStage, string>)
    ensures r.Err? ==> r.error == InvalidStage(t, LISTED)
  {
    if t == "sources" then Ok(Sources)
    else if t == "build" then Ok(Build)
    else if t == "install" then Ok(Install)
    else Err(InvalidStage(t, LISTED))
  }

  /** Both definitions accept and reject the same strings and agree on every
      accepted one. */
  lemma DeserializeAgrees(t: string)
    ensures Deserialize(t).Ok? <==> DeserializeAsWritten(t).Ok?
    ensures Deserialize(t).Ok? ==> Deserialize(t) == DeserializeAsWritten(t)
  {
  }

  /** Every name the corrected message offers is accepted. */
  lemma ListedNamesAccepted(k: nat)
    requires k < |LISTED|
    ensures Deserialize(LISTED[k]).Ok?
    ensures Serialize(Deserialize(LISTED[k]).value) == LISTED[k]
  {
  }

  lemma DeserializeSerialize(s: TestStage)
    ensures Deserialize(Serialize(s)) == Ok(s)
  {
  }

  /** Exactly the three serialised names are accepted, and each one
      serialises back to itself. */
  lemma SerializeDeserialize(t: string)
    ensures Deserialize(t).Ok? <==> t in {"sources", "build", "install"}
    ensures Deserialize(t).Ok? ==> Serialize(Deserialize(t).value) == t
  {
  }

  /** A test specification. Option maps and requests are opaque here. */
  datatype TestSpec<O, R> = TestSpec(stage: TestStage, script: string, selectors: seq<O>, requirements: seq<R>)

  /** A serialised field value. */
  datatype Value<O, R> = Text(text: string) | Selectors(maps: seq<O>) | Requirements(requests: seq<R>)

  /** Serialisation of the record: the list fields are omitted when empty. */
  function SerializeSpec<O, R>(t: TestSpec<O, R>): (r: map<string, Value<O, R>>)
    ensures "stage" in r && r["stage"] == Text(Serialize(t.stage))
    ensures "script" in r && r["script"] == Text(t.script)
    ensures "selectors" in r <==> t.selectors != []
    ensures "requirements" in r <==> t.requirements != []
    ensures r.Keys <= {"stage", "script", "selectors", "requirements"}
  {
    var base := map["stage" := Text(Serialize(t.stage)), "script" := Text(t.script)];
    var withSelectors := if t.selectors == [] then base else base["selectors" := Selectors(t.selectors)];
    if t.requirements == [] then withSelectors else withSelectors["requirements" := Requirements(t.requirements)]
  }

  function MissingField(key: string): string {
    "missing field `" + key + "`"
  }

  function TextField<O, R>(m: map<string, Value<O, R>>, key: string): Result<string, string> {
    if key !in m then Err(MissingField(key))
    else if !m[key].Text? then Err("invalid type for field `" + key + "`")
    else Ok(m[key].text)
  }

  function SelectorsField<O, R>(m: map<string, Value<O, R>>): (r: Result<seq<O>, string>)
    ensures "selectors" !in m ==> r == Ok([])
  {
    if "selectors" !in m then Ok([])
    else if !m["selectors"].Selectors? then Err("invalid type for field `selectors`")
    else Ok(m["selectors"].maps)
  }

  function RequirementsField<O, R>(m: map<string, Value<O, R>>): (r: Result<seq<R>, string>)
    ensures "requirements" !in m ==> r == Ok([])
  {
    if "requirements" !in m then Ok([])
    else if !m["requirements"].Requirements? then Err("invalid type for field `requirements`")
    else Ok(m["requirements"].requests)
  }

  /** Deserialisation of the record: `stage` and `script` are required, the
      list fields default to empty when absent. */
  function DeserializeSpec<O, R>(m: map<string, Value<O, R>>): (r: Result<TestSpec<O, R>, string>)
  {
    var stageText :- TextField(m, "stage");
    var stage :- Deserialize(stageText);
    var script :- TextField(m, "script");
    var selectors :- SelectorsField(m);
    var requirements :- RequirementsField(m);
    Ok(TestSpec(stage, script, selectors, requirements))
  }

  /** A record without list fields reads as one with empty lists. */
  lemma DefaultsWhenAbsent<O, R>(stage: TestStage, script: string)
    ensures DeserializeSpec(map["stage" := Text(Serialize(stage)), "script" := Text(script)])
         == Ok(TestSpec<O, R>.TestSpec(stage, script, [], []))
  {
    DeserializeSerialize(stage);
  }

  /** A record without a stage, with an unknown one or without a script is
      rejected. */
  lemma StageRequired<O, R>(m: map<string, Value<O, R>>)
    ensures "stage" !in m ==> DeserializeSpec(m) == Err(MissingField("stage"))
    ensures "stage" in m && m["stage"].Text? && Deserialize(m["stage"].text).Err? ==>
      DeserializeSpec(m) == Err(InvalidStage(m["stage"].text, LISTED))
    ensures "script" !in m ==> DeserializeSpec(m).Err?
  {
  }

  /** Every record reads back from its serialised form. */
  lemma {:induction false} SpecRoundTrip<O, R>(t: TestSpec<O, R>)
    ensures DeserializeSpec(SerializeSpec(t)) == Ok(t)
  {
    DeserializeSerialize(t.stage);
  }
}
