/** The knowledge base of js/chatbot.js: an ordered catalogue of entries
    whose ids are not guaranteed unique, searched with `Array.find`
    semantics (the first entry with the id wins). */
module Knowledge {
  import opened Options

  /** One knowledge-base record. The response is rich text the engine never
      inspects. */
  datatype Entry = Entry(id: string, keywords: seq<string>, response: string, followUpChips: seq<string>)

  /** The position of the first entry with the given id, if any. */
  function FirstIndexOf(catalogue: seq<Entry>, id: string): (r: Option<nat>)
    ensures r.None? <==> forall i :: 0 <= i < |catalogue| ==> catalogue[i].id != id
    ensures r.Some? ==> r.value < |catalogue| && catalogue[r.value].id == id
    ensures r.Some? ==> forall i :: 0 <= i < r.value ==> catalogue[i].id != id
  {
    if catalogue == [] then None
    else if catalogue[0].id == id then Some(0)
    else match FirstIndexOf(catalogue[1..], id)
      case None => None
      case Some(i) => Some(i + 1)
  }

  /** `knowledgeBase.find(k => k.id === id)`: the first entry carrying the id,
      or nothing when no entry carries it. */
  function FindById(catalogue: seq<Entry>, id: string): (r: Option<Entry>)
    ensures r.None? <==> forall i :: 0 <= i < |catalogue| ==> catalogue[i].id != id
    ensures r.Some? ==> r.value in catalogue && r.value.id == id
    ensures r.Some? ==>
      exists i :: (0 <= i < |catalogue| && catalogue[i] == r.value &&
                   forall j :: 0 <= j < i ==> catalogue[j].id != id)
  {
    match FirstIndexOf(catalogue, id)
    case None => None
    case Some(i) => Some(catalogue[i])
  }

  /** The fields `updateKnowledgeItem` may change. A response replaces the old
      one only when it is a non-empty string (JavaScript truthiness); a chip
      list replaces the old one whenever it is given, even when empty, since
      every array is truthy. */
  datatype Patch = Patch(response: Option<string>, followUpChips: Option<seq<string>>)

  predicate ReplacesResponse(p: Patch) {
    p.response.Some? && p.response.value != ""
  }

  /** `updateKnowledgeItem(id, data)`: the first entry with the id gets the
      patch; every other entry, and the ids and keywords of all entries, stay
      as they were. */
  function UpdateKnowledgeItem(catalogue: seq<Entry>, id: string, patch: Patch): (r: seq<Entry>)
    ensures |r| == |catalogue|
    ensures forall i :: 0 <= i < |r| ==> r[i].id == catalogue[i].id && r[i].keywords == catalogue[i].keywords
    ensures FirstIndexOf(catalogue, id).None? ==> r == catalogue
    ensures forall i :: 0 <= i < |r| && Some(i) != FirstIndexOf(catalogue, id) ==> r[i] == catalogue[i]
    ensures forall i :: 0 <= i < |r| && Some(i) == FirstIndexOf(catalogue, id) ==>
              && r[i].response == (if ReplacesResponse(patch) then patch.response.value else catalogue[i].response)
              && r[i].followUpChips == (if patch.followUpChips.Some? then patch.followUpChips.value else catalogue[i].followUpChips)
  {
    match FirstIndexOf(catalogue, id)
    case None => catalogue
    case Some(i) =>
      var e := catalogue[i];
      var e1 := if ReplacesResponse(patch) then e.(response := patch.response.value) else e;
      var e2 := if patch.followUpChips.Some? then e1.(followUpChips := patch.followUpChips.value) else e1;
      catalogue[i := e2]
  }

  /** After an update, looking the id up again finds the patched entry at the
      same place, and an absent id stays absent. */
  lemma UpdateThenFind(catalogue: seq<Entry>, id: string, patch: Patch)
    ensures FirstIndexOf(UpdateKnowledgeItem(catalogue, id, patch), id) == FirstIndexOf(catalogue, id)
    ensures FindById(catalogue, id).None? ==> FindById(UpdateKnowledgeItem(catalogue, id, patch), id).None?
  {
    var r := UpdateKnowledgeItem(catalogue, id, patch);
    match FirstIndexOf(catalogue, id)
    case None =>
    case Some(i) =>
      assert r[i].id == id;
      assert forall j :: 0 <= j < i ==> r[j].id != id;
      FirstIndexOfUnique(r, id, i);
  }

  /** The first index with an id is determined by the ids alone. */
  lemma FirstIndexOfUnique(catalogue: seq<Entry>, id: string, i: nat)
    requires i < |catalogue| && catalogue[i].id == id
    requires forall j :: 0 <= j < i ==> catalogue[j].id != id
    ensures FirstIndexOf(catalogue, id) == Some(i)
  {
  }
}
