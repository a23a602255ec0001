/**
 * src/bresse/models/base.py: how ModelOnline and ModelCloud resolve and
 * validate the model identifier they are constructed with.
 */
module ModelsBase {
  import opened Wrappers
  import opened Identifiers

  /** The model_id argument: a str, a ModelId, or any other Python value. */
  datatype IdArg = StrArg(s: string) | ModelIdArg(mid: ModelId) | OtherArg

  /** Why a ValueError is raised. */
  datatype Reason = NoModelsDefined | UnknownModel(id: string) | NotAvailable(id: string) | MissingApiKey

  /** The exceptions the constructors raise. */
  datatype InitError = ValueError(reason: Reason) | TypeError

  /** Some entry of the list carries this id. */
  predicate HasId(listModels: seq<ModelId>, id: string) {
    exists i | 0 <= i < |listModels| :: listModels[i].id == id
  }

  /**
   * _get_identifier_str: the first listed ModelId whose id is the string,
   * or ValueError when none is.
   */
  function GetIdentifierStr(listModels: seq<ModelId>, id: string): (r: Result<ModelId, InitError>)
    ensures r.Success? <==> HasId(listModels, id)
    ensures r.Failure? ==> r.error == ValueError(UnknownModel(id))
    ensures r.Success? ==> exists i | 0 <= i < |listModels| ::
      listModels[i] == r.value && r.value.id == id && forall j | 0 <= j < i :: listModels[j].id != id
  {
    if listModels == [] then Failure(ValueError(UnknownModel(id)))
    else if listModels[0].id == id then Success(listModels[0])
    else
      var r := GetIdentifierStr(listModels[1..], id);
      assert HasId(listModels, id) ==> HasId(listModels[1..], id) by {
        if HasId(listModels, id) {
          var i :| 0 <= i < |listModels| && listModels[i].id == id;
          assert listModels[1..][i - 1].id == id;
        }
      }
      assert r.Success? ==> exists i | 0 <= i < |listModels| ::
        listModels[i] == r.value && r.value.id == id && forall j | 0 <= j < i :: listModels[j].id != id
      by {
        if r.Success? {
          var i :| 0 <= i < |listModels[1..]| && listModels[1..][i] == r.value && r.value.id == id &&
            forall j | 0 <= j < i :: listModels[1..][j].id != id;
          assert listModels[i + 1] == r.value;
          assert forall j | 0 <= j < i + 1 :: listModels[j].id != id by {
            forall j | 0 <= j < i + 1 ensures listModels[j].id != id {
              if j > 0 {
                assert listModels[j] == listModels[1..][j - 1];
              }
            }
          }
        }
      }
      r
  }

  /**
   * _get_identifier_model_id: the ModelId itself when the list holds an
   * equal one (dataclass equality: class and all fields), else ValueError.
   */
  function GetIdentifierModelId(listModels: seq<ModelId>, modelId: ModelId): (r: Result<ModelId, InitError>)
    ensures r.Success? <==> modelId in listModels
    ensures r.Success? ==> r.value == modelId
    ensures r.Failure? ==> r.error == ValueError(NotAvailable(modelId.id))
  {
    if modelId !in listModels then Failure(ValueError(NotAvailable(modelId.id)))
    else Success(modelId)
  }

  /**
   * ModelOnline.__init__: an empty API key is a ValueError whatever the
   * identifier; a str becomes a free ModelId (both costs 0); anything else is
   * stored as given.
   */
  function ModelOnlineInit(modelId: IdArg, apiKey: string): (r: Result<IdArg, InitError>)
    ensures r.Failure? <==> apiKey == []
    ensures r.Failure? ==> r.error == ValueError(MissingApiKey)
    ensures r.Success? && modelId.StrArg? ==>
      r.value == ModelIdArg(ModelId(ModelIdClass, modelId.s, 0, 0))
    ensures r.Success? && !modelId.StrArg? ==> r.value == modelId
  {
    if apiKey == [] then Failure(ValueError(MissingApiKey))
    else match modelId
      case StrArg(s) => Success(ModelIdArg(ModelId(ModelIdClass, s, 0, 0)))
      case _ => Success(modelId)
  }

  /** The identifier resolves against the list: a listed id string, or a listed ModelId. */
  predicate Resolves(listModels: seq<ModelId>, modelId: IdArg) {
    match modelId
    case StrArg(s) => HasId(listModels, s)
    case ModelIdArg(m) => m in listModels
    case OtherArg => false
  }

  /**
   * ModelCloud.__init__: the checks in order (a class with no models, an
   * identifier of the wrong type, an unknown identifier, then ModelOnline's
   * API key check); on success the stored identifier is a listed ModelId.
   */
  function ModelCloudInit(listModels: seq<ModelId>, modelId: IdArg, apiKey: string): (r: Result<ModelId, InitError>)
    ensures listModels == [] ==> r == Failure(ValueError(NoModelsDefined))
    ensures listModels != [] && modelId.OtherArg? ==> r == Failure(TypeError)
    ensures listModels != [] && modelId.StrArg? && !HasId(listModels, modelId.s) ==>
      r == Failure(ValueError(UnknownModel(modelId.s)))
    ensures listModels != [] && modelId.ModelIdArg? && modelId.mid !in listModels ==>
      r == Failure(ValueError(NotAvailable(modelId.mid.id)))
    ensures listModels != [] && Resolves(listModels, modelId) && apiKey == [] ==>
      r == Failure(ValueError(MissingApiKey))
    ensures r.Success? <==> listModels != [] && Resolves(listModels, modelId) && apiKey != []
    ensures r.Success? ==> r.value in listModels
    ensures r.Success? && modelId.ModelIdArg? ==> r.value == modelId.mid
    ensures r.Success? && modelId.StrArg? ==> r.value == GetIdentifierStr(listModels, modelId.s).value
  {
    if listModels == [] then Failure(ValueError(NoModelsDefined))
    else
      var resolved :=
        match modelId
        case StrArg(s) => GetIdentifierStr(listModels, s)
        case ModelIdArg(m) => GetIdentifierModelId(listModels, m)
        case OtherArg => Failure(TypeError);
      if resolved.Failure? then Failure(resolved.error)
      else
        match ModelOnlineInit(ModelIdArg(resolved.value), apiKey)
        case Failure(e) => Failure(e)
        case Success(stored) => Success(stored.mid)
  }

  /** The string an id resolves to is the first listed model with that id. */
  lemma StrResolvesToFirst(listModels: seq<ModelId>, id: string, apiKey: string, k: nat)
    requires k < |listModels| && listModels[k].id == id && apiKey != []
    requires forall j | 0 <= j < k :: listModels[j].id != id
    ensures ModelCloudInit(listModels, StrArg(id), apiKey) == Success(listModels[k])
  {
    var r := GetIdentifierStr(listModels, id);
    assert HasId(listModels, id);
    var i :| 0 <= i < |listModels| && listModels[i] == r.value && r.value.id == id &&
      forall j | 0 <= j < i :: listModels[j].id != id;
    assert !(i < k) && !(k < i);
  }

  /**
   * A ModelId of another class is not listed even with the same id and costs,
   * as for a list holding a subclass instance such as FakeModelId.
   */
  lemma ClassTagMatters(listModels: seq<ModelId>, m: ModelId, apiKey: string)
    requires listModels == [ModelId("FakeModelId", m.id, m.inputCostMillion, m.outputCostMillion)]
    requires m.cls == ModelIdClass
    ensures ModelCloudInit(listModels, ModelIdArg(m), apiKey) == Failure(ValueError(NotAvailable(m.id)))
  {
    assert m.cls[0] == 'M' && listModels[0].cls[0] == 'F';
  }

  /**
   * The free ModelId that ModelOnline builds from a string is refused by a
   * ModelCloud whose listed models are all priced, even when one of them has
   * that id: it is not available there.
   */
  lemma FreeModelIdNotAvailable(id: string, apiKey: string, listModels: seq<ModelId>)
    requires apiKey != [] && listModels != []
    requires forall i | 0 <= i < |listModels| :: listModels[i].inputCostMillion > 0
    ensures var stored := ModelOnlineInit(StrArg(id), apiKey).value;
      ModelCloudInit(listModels, stored, apiKey) == Failure(ValueError(NotAvailable(id)))
  {
  }
}
