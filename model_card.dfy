/** The card of one published model, components/ModelCard.tsx: its Share button
    builds a link to the current page that opens this model. */
module ModelCard {
  import opened Types
  import opened FormUrlEncoded
  import opened SearchParams

  const ModelIdParam: string := "modelId"

  /** `handleShare`: copy the current address, set its `modelId` to the model's
      id, and return the resulting link (the text given to the clipboard). */
  method HandleShare(model: ModelData, current: Location) returns (link: Location)
    // the page and the fragment are those of the current address
    ensures link.base == current.base && link.fragment == current.fragment
    // the query is rewritten from the parsed pairs with `modelId` set
    ensures link.query == Serialize(Set(Parse(current.query), ModelIdParam, model.id))
    // parsing the link back gives the model's id, held by exactly one pair
    ensures Get(Parse(link.query), ModelIdParam) == Some(model.id)
    ensures Count(Parse(link.query), ModelIdParam) == 1
    // every other parameter is kept, in its order
    ensures Delete(Parse(link.query), ModelIdParam) == Delete(Parse(current.query), ModelIdParam)
    ensures forall name | name != ModelIdParam :: Get(Parse(link.query), name) == Get(Parse(current.query), name)
  {
    var url := new Url(current);
    url.SetParam(ModelIdParam, model.id);
    link := url.Href();
    var q := Parse(current.query);
    ParseSerialize(Set(q, ModelIdParam, model.id));
    GetAfterSet(q, ModelIdParam, model.id);
    SetLeavesOne(q, ModelIdParam, model.id);
    SetKeepsOthers(q, ModelIdParam, model.id);
    forall name | name != ModelIdParam
      ensures Get(Parse(link.query), name) == Get(q, name)
    {
      GetOtherAfterSet(q, ModelIdParam, model.id, name);
    }
  }
}
