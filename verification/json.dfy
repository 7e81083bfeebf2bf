/** The output tree the encoder builds, in place of serde_json's `Value`, and
    the `Reference` record of the flat index with its field-to-output mapping.
    Text serialisation is not modelled. */
module Json {
  import opened Results

  datatype Json =
    | JNull
    | JBool(b: bool)
    | JNumber(n: int)
    | JString(s: string)
    | JArray(items: seq<Json>)
    | JObject(members: map<string, Json>)

  /** The value stored under `key` in an object, if any. */
  function Member(v: Json, key: string): Option<Json>
  {
    if v.JObject? && key in v.members then Some(v.members[key]) else None
  }

  /** The member names of an object; none for any other value. */
  function Keys(v: Json): set<string>
  {
    if v.JObject? then v.members.Keys else {}
  }

  /** The `tag` discriminator of a tagged node. */
  function Tag(v: Json): Option<Json>
  {
    Member(v, "tag")
  }

  /** How many `inner` links lead down from `v`: the nesting depth of a
      type-wrapper node. */
  function InnerDepth(v: Json): nat
  {
    match v
    case JObject(m) => if "inner" in m then 1 + InnerDepth(m["inner"]) else 0
    case _ => 0
  }

  /** One entry of the flat index, or one ancestor in a class's `bases`. */
  datatype Reference = Reference(name: string, index: nat, base: Option<nat>)

  /** Reads back a `Reference` from its output object. */
  function ReadReference(v: Json): Option<Reference>
  {
    match (Member(v, "name"), Member(v, "index"), Member(v, "base"))
    case (Some(JString(name)), Some(JNumber(index)), Some(JNull)) =>
      if index >= 0 then Some(Reference(name, index, None)) else None
    case (Some(JString(name)), Some(JNumber(index)), Some(JNumber(base))) =>
      if index >= 0 && base >= 0 then Some(Reference(name, index, Some(base))) else None
    case _ => None
  }

  /** The output object of a `Reference`: `name`, `index`, and `base` as a
      number or null. */
  function ReferenceJson(r: Reference): (v: Json)
    ensures v.JObject? && v.members.Keys == {"name", "index", "base"}
    ensures ReadReference(v) == Some(r)
  {
    JObject(map[
      "name" := JString(r.name),
      "index" := JNumber(r.index),
      "base" := match r.base case None => JNull case Some(b) => JNumber(b)
    ])
  }

  /** The output array of a sequence of references, in order. */
  function ReferencesJson(refs: seq<Reference>): (v: Json)
    ensures v.JArray? && |v.items| == |refs|
    ensures forall k :: 0 <= k < |refs| ==> ReadReference(v.items[k]) == Some(refs[k])
  {
    JArray(seq(|refs|, k requires 0 <= k < |refs| => ReferenceJson(refs[k])))
  }
}
