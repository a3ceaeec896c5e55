/**
 * `createLabel` (index.js:116-140): create the `Vacation` label, or on a
 * 409 conflict fall back to the first listed label with that exact name.
 */
module Labels {
  import opened Wrappers
  import opened Text
  import opened Provider

  type LabelId = string

  /** `LABEL_NAME` (index.js:47), also the literal the fallback searches for (index.js:133). */
  const LabelName: string := "Vacation"

  datatype Label = Label(id: LabelId, name: string)

  /** The provider's answer to `labels.create`. */
  datatype CreateAnswer = Created(id: LabelId) | CreateFailed(error: ApiError)

  /** The provider's answer to `labels.list`; an absent `labels` field reads as the empty list. */
  datatype ListAnswer = Listed(labels: seq<Label>) | ListFailed(error: ApiError)

  /**
   * Why `createLabel` throws: an error of either call passed on as it is, or
   * the `TypeError` of reading `.id` when no label is named `Vacation`.
   */
  datatype LabelError = Thrown(error: ApiError) | VacationLabelMissing

  /** The id of the first label whose name is exactly `name`, if any. */
  function FindLabel(labels: seq<Label>, name: string): (r: Option<LabelId>)
    ensures r.None? <==> forall k :: 0 <= k < |labels| ==> labels[k].name != name
    ensures r.Some? ==> exists k :: 0 <= k < |labels| && labels[k].name == name && labels[k].id == r.value
                                    && forall j :: 0 <= j < k ==> labels[j].name != name
  {
    match FindFirst(labels, (l: Label) => l.name == name)
    case None => None
    case Some(k) => Some(labels[k].id)
  }

  /**
   * The label id `createLabel` resolves to, given the answer to the create
   * call and the answer the list call would give.
   */
  function ResolveLabel(create: CreateAnswer, list: ListAnswer): (r: Result<LabelId, LabelError>)
    ensures create.Created? ==> r == Ok(create.id)
    ensures create.CreateFailed? && create.error.code != Conflict ==> r == Err(Thrown(create.error))
    ensures create.CreateFailed? && create.error.code == Conflict && list.ListFailed?
            ==> r == Err(Thrown(list.error))
    ensures create.CreateFailed? && create.error.code == Conflict && list.Listed?
            ==> (r.Ok? <==> exists k :: 0 <= k < |list.labels| && list.labels[k].name == LabelName)
    ensures create.CreateFailed? && create.error.code == Conflict && list.Listed? && r.Ok?
            ==> exists k :: 0 <= k < |list.labels| && list.labels[k] == Label(r.value, LabelName)
                            && forall j :: 0 <= j < k ==> list.labels[j].name != LabelName
    ensures create.CreateFailed? && create.error.code == Conflict && list.Listed? && r.Err?
            ==> r == Err(VacationLabelMissing)
    ensures r.Err? && r.error == VacationLabelMissing ==> create.CreateFailed? && create.error.code == Conflict
  {
    match create
    case Created(id) => Ok(id)
    case CreateFailed(err) =>
      if err.code == Conflict then
        match list
        case ListFailed(listErr) => Err(Thrown(listErr))
        case Listed(labels) =>
          match FindLabel(labels, LabelName)
          case None => Err(VacationLabelMissing)
          case Some(id) => Ok(id)
      else
        Err(Thrown(err))
  }

  /** The label list is read only after a conflict. */
  lemma ListOnlyOnConflict(create: CreateAnswer, list1: ListAnswer, list2: ListAnswer)
    requires !(create.CreateFailed? && create.error.code == Conflict)
    ensures ResolveLabel(create, list1) == ResolveLabel(create, list2)
  {
  }

  /**
   * A label whose name differs from `Vacation` only in case is not found by
   * the exact lookup of index.js:133: if the provider answered the create
   * with 409 because of it, `createLabel` fails.
   */
  lemma CaseVariantIsMissing(id: LabelId)
    ensures ResolveLabel(CreateFailed(ApiError(Conflict)), Listed([Label(id, "vacation")]))
            == Err(VacationLabelMissing)
  {
    assert "vacation"[0] != LabelName[0];
  }

  // ---------------------------------------------------------------------------
  // A mailbox-side model of label creation, to state what two runs do.

  /**
   * `labels.create` against a mailbox holding `store`: a name already taken
   * answers 409 and changes nothing; otherwise the label is added under `newId`.
   */
  function ProviderCreate(store: seq<Label>, name: string, newId: LabelId): (CreateAnswer, seq<Label>)
  {
    if FindLabel(store, name).Some? then (CreateFailed(ApiError(Conflict)), store)
    else (Created(newId), store + [Label(newId, name)])
  }

  /** One run of `createLabel` against `store`: the resolved id and the mailbox afterwards. */
  function EnsureLabel(store: seq<Label>, newId: LabelId): (Result<LabelId, LabelError>, seq<Label>)
  {
    var (answer, after) := ProviderCreate(store, LabelName, newId);
    (ResolveLabel(answer, Listed(after)), after)
  }

  /**
   * Two runs in sequence resolve to the same id, the second leaves the
   * mailbox as the first left it, and the first adds a `Vacation` label only
   * when there was none.
   */
  lemma EnsureLabelTwice(store: seq<Label>, id1: LabelId, id2: LabelId)
    ensures var (r1, s1) := EnsureLabel(store, id1);
            var (r2, s2) := EnsureLabel(s1, id2);
            && r1.Ok? && r2 == r1 && s2 == s1
            && (FindLabel(store, LabelName).Some? ==> s1 == store && r1.value == FindLabel(store, LabelName).value)
            && (FindLabel(store, LabelName).None? ==> s1 == store + [Label(id1, LabelName)] && r1.value == id1)
  {
    var (r1, s1) := EnsureLabel(store, id1);
    if FindLabel(store, LabelName).None? {
      assert s1[|store|] == Label(id1, LabelName);
      assert FindLabel(s1, LabelName) == Some(id1);
    }
  }
}
