/** The document-key rule of `uploadFile`: a truthy `id`, else a truthy `email`, else a generated key. */
module DocumentKeys {
  import opened JsonValues

  /** The key a document is written under: a field value passed to `colRef.doc` verbatim, or one the store generates. */
  datatype Key = Given(value: Value) | Generated(id: nat)

  /** What the rule picks for one record, before the store is asked for a key. */
  datatype KeyChoice = UseField(value: Value) | AutoId

  /** The fields consulted, in priority order. */
  const KeyFields: seq<string> := ["id", "email"]

  function ChooseKey(r: Record): KeyChoice
  {
    if Truthy(Get(r, "id")) then UseField(r["id"])
    else if Truthy(Get(r, "email")) then UseField(r["email"])
    else AutoId
  }

  /** A field is used only when truthy, and the store's key only when no key field is. */
  lemma ChooseKeySpec(r: Record)
    ensures ChooseKey(r).UseField? ==> Truthy(Some(ChooseKey(r).value))
    ensures ChooseKey(r).AutoId? <==> forall f | f in KeyFields :: !Truthy(Get(r, f))
  {
  }

  /** Reference rule: the value of the first field in `fields` that is truthy, if any. */
  function FirstTruthy(r: Record, fields: seq<string>): (v: Option<Value>)
    ensures v.Some? ==> exists i | 0 <= i < |fields| :: Get(r, fields[i]) == v && Truthy(v)
    ensures v.None? <==> forall i | 0 <= i < |fields| :: !Truthy(Get(r, fields[i]))
  {
    if fields == [] then None
    else if Truthy(Get(r, fields[0])) then Get(r, fields[0])
    else FirstTruthy(r, fields[1..])
  }

  /** The key rule is "first truthy of id, email", and the store's key only when neither is. */
  lemma {:induction false} ChooseKeyIsFirstTruthy(r: Record)
    ensures ChooseKey(r) == match FirstTruthy(r, KeyFields)
                           case Some(v) => UseField(v)
                           case None => AutoId
  {
    assert KeyFields[1..] == ["email"];
    assert KeyFields[1..][1..] == [];
  }

  /** A truthy `id` is the key whatever the other fields hold. */
  lemma IdTakesPriority(r: Record, s: Record)
    requires Truthy(Get(r, "id")) && Get(s, "id") == Get(r, "id")
    ensures ChooseKey(s) == ChooseKey(r) == UseField(r["id"])
  {
  }

  /** Without a truthy `id`, a truthy `email` is the key whatever the fields other than `id` and `email` hold. */
  lemma EmailIsSecond(r: Record, s: Record)
    requires !Truthy(Get(r, "id")) && Truthy(Get(r, "email"))
    requires Get(s, "id") == Get(r, "id") && Get(s, "email") == Get(r, "email")
    ensures ChooseKey(s) == ChooseKey(r) == UseField(r["email"])
  {
  }
}
