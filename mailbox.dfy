/**
 * The per-cycle work of `main` (index.js:168-182) against an abstract
 * mailbox: the scan's defaulting (index.js:58-67), one reply per candidate
 * (index.js:71-112) and the relabel request (index.js:144-154).
 *
 * The mailbox is a map from message id to the set of labels the message
 * carries, the metadata headers of each message, and the log of the
 * state-changing requests it has accepted (sends and label changes), in order.
 */
module Mailbox {
  import opened Wrappers
  import opened Provider
  import opened Reply
  import opened Labels

  /** The system label of messages still in the inbox. */
  const Inbox: LabelId := "INBOX"

  /** A state-changing request the mailbox accepted. */
  datatype Request =
    | Send(raw: string)
    | Modify(id: MessageId, add: seq<LabelId>, remove: seq<LabelId>)

  /** Anything that rejects one of the `await`s of a cycle. */
  datatype Failure = Api(apiError: ApiError) | Compose(composeError: ComposeError)

  /** The provider's answer to `messages.list`; `messages` is absent when nothing matches. */
  datatype ScanAnswer = ScanListed(messages: Option<seq<MessageId>>) | ScanFailed(error: ApiError)

  /** Where a cycle, or part of one, leaves the mailbox, and the failure that stopped it, if any. */
  datatype Progress = Progress(labelsOf: map<MessageId, set<LabelId>>, requests: seq<Request>, failure: Option<Failure>)

  /** `getUnrepliedMessages` (index.js:58-67): the listed ids, `[]` when the field is absent. */
  function UnrepliedMessages(answer: ScanAnswer): (r: Result<seq<MessageId>, ApiError>)
    ensures answer.ScanFailed? <==> r.Err?
    ensures r.Err? ==> r.error == answer.error
    ensures r.Ok? ==> r.value == answer.messages.GetOr([])
    ensures r.Ok? && r.value != [] ==> answer.messages == Some(r.value)
  {
    match answer
    case ScanFailed(err) => Err(err)
    case ScanListed(messages) => Ok(messages.GetOr([]))
  }

  /** The request `addLabel` sends for message `id` (index.js:146-153). */
  function AddLabelRequest(id: MessageId, labelId: LabelId): (r: Request)
    ensures r.Modify? && r.id == id && r.add == [labelId] && r.remove == [Inbox]
  {
    Modify(id, [labelId], [Inbox])
  }

  /** How the mailbox applies a label change: 404 for an unknown id, else add then remove. */
  function ApplyModify(labelsOf: map<MessageId, set<LabelId>>, id: MessageId, add: seq<LabelId>, remove: seq<LabelId>)
    : (r: Result<map<MessageId, set<LabelId>>, ApiError>)
    ensures r.Err? <==> id !in labelsOf
    ensures r.Err? ==> r.error == ApiError(NotFound)
    ensures r.Ok? ==> r.value.Keys == labelsOf.Keys
    ensures r.Ok? ==> forall x :: x in labelsOf && x != id ==> r.value[x] == labelsOf[x]
    ensures r.Ok? ==> forall l :: l in r.value[id] <==> (l in labelsOf[id] || l in add) && l !in remove
  {
    if id !in labelsOf then Err(ApiError(NotFound))
    else Ok(labelsOf[id := (labelsOf[id] + set l | l in add) - set l | l in remove])
  }

  /**
   * The relabel of index.js:146-153: afterwards the message carries `labelId`,
   * not `INBOX`, and all its other labels; no other message changes; doing it
   * again changes nothing.
   */
  lemma RelabelEffect(labelsOf: map<MessageId, set<LabelId>>, id: MessageId, labelId: LabelId)
    requires id in labelsOf && labelId != Inbox
    ensures var r := ApplyModify(labelsOf, id, [labelId], [Inbox]);
      && r.Ok?
      && labelId in r.value[id] && Inbox !in r.value[id]
      && r.value[id] == labelsOf[id] + {labelId} - {Inbox}
      && (forall x :: x in labelsOf && x != id ==> r.value[x] == labelsOf[x])
      && ApplyModify(r.value, id, [labelId], [Inbox]) == r
  {
    var r := ApplyModify(labelsOf, id, [labelId], [Inbox]);
    assert r.value[id] == labelsOf[id] + {labelId} - {Inbox};
    var again := ApplyModify(r.value, id, [labelId], [Inbox]);
    assert again.value[id] == r.value[id];
    assert again.value == r.value;
  }

  /** `sendReply` (index.js:71-112): fetch the metadata (404 for an unknown id), then compose. */
  function ReplyFor(metadata: map<MessageId, seq<Header>>, id: MessageId): (r: Result<string, Failure>)
    ensures id !in metadata ==> r == Err(Api(ApiError(NotFound)))
    ensures id in metadata ==> match ComposeReply(metadata[id], id)
                               case Ok(raw) => r == Ok(raw)
                               case Err(e) => r == Err(Compose(e))
  {
    if id !in metadata then Err(Api(ApiError(NotFound)))
    else match ComposeReply(metadata[id], id)
      case Ok(raw) => Ok(raw)
      case Err(e) => Err(Compose(e))
  }

  /** The reply derivation as the cycle sees it: the encoded reply to each message, or why there is none. */
  type Replier = MessageId -> Result<string, Failure>

  /** The replies `sendReply` derives from the mailbox's metadata. */
  function RepliesFrom(metadata: map<MessageId, seq<Header>>): Replier
  {
    id => ReplyFor(metadata, id)
  }

  /**
   * One iteration of the loop of index.js:172-182: send the reply, then
   * relabel.  A failure of either step stops there; a send already made stays made.
   */
  function Step(replies: Replier, labelsOf: map<MessageId, set<LabelId>>,
                requests: seq<Request>, id: MessageId, labelId: LabelId): (p: Progress)
    ensures replies(id).Err? ==> p == Progress(labelsOf, requests, Some(replies(id).error))
    ensures replies(id).Ok? && id !in labelsOf
            ==> p == Progress(labelsOf, requests + [Send(replies(id).value)], Some(Api(ApiError(NotFound))))
    ensures replies(id).Ok? && id in labelsOf
            ==> && p.failure.None?
                && p.requests == requests + [Send(replies(id).value), AddLabelRequest(id, labelId)]
                && Ok(p.labelsOf) == ApplyModify(labelsOf, id, [labelId], [Inbox])
  {
    match replies(id)
    case Err(f) => Progress(labelsOf, requests, Some(f))
    case Ok(raw) =>
      var req := AddLabelRequest(id, labelId);
      match ApplyModify(labelsOf, id, req.add, req.remove)
      case Err(e) => Progress(labelsOf, requests + [Send(raw)], Some(Api(e)))
      case Ok(relabelled) => Progress(relabelled, requests + [Send(raw), req], None)
  }

  /** The loop of index.js:172-182 over `ids`, in order, stopping at the first failure. */
  function Handle(replies: Replier, labelsOf: map<MessageId, set<LabelId>>,
                  requests: seq<Request>, ids: seq<MessageId>, labelId: LabelId): Progress
    decreases |ids|
  {
    if |ids| == 0 then Progress(labelsOf, requests, None)
    else
      var p := Step(replies, labelsOf, requests, ids[0], labelId);
      if p.failure.Some? then p
      else Handle(replies, p.labelsOf, p.requests, ids[1..], labelId)
  }

  /** One interval callback (index.js:165-182): scan, then handle the candidates. */
  function Cycle(replies: Replier, labelsOf: map<MessageId, set<LabelId>>,
                 requests: seq<Request>, scan: ScanAnswer, labelId: LabelId): Progress
  {
    match UnrepliedMessages(scan)
    case Err(e) => Progress(labelsOf, requests, Some(Api(e)))
    case Ok(ids) => Handle(replies, labelsOf, requests, ids, labelId)
  }

  /**
   * Handling `ids + more` handles `ids` first and goes on to `more` only if
   * no message of `ids` failed.
   */
  lemma {:induction false} HandleAppend(replies: Replier, labelsOf: map<MessageId, set<LabelId>>,
                                        requests: seq<Request>, ids: seq<MessageId>, more: seq<MessageId>, labelId: LabelId)
    ensures var p := Handle(replies, labelsOf, requests, ids, labelId);
            Handle(replies, labelsOf, requests, ids + more, labelId)
            == if p.failure.Some? then p else Handle(replies, p.labelsOf, p.requests, more, labelId)
    decreases |ids|
  {
    if |ids| == 0 {
      assert ids + more == more;
    } else {
      assert (ids + more)[0] == ids[0] && (ids + more)[1..] == ids[1..] + more;
      var p := Step(replies, labelsOf, requests, ids[0], labelId);
      if p.failure.None? {
        HandleAppend(replies, p.labelsOf, p.requests, ids[1..], more, labelId);
      }
    }
  }

  /**
   * `after` is `before` followed, for each message of `ids` in order, by the
   * send of its reply and then its relabel.
   */
  ghost predicate LoggedInOrder(replies: Replier, before: seq<Request>, after: seq<Request>,
                                ids: seq<MessageId>, labelId: LabelId)
  {
    && |after| == |before| + 2 * |ids|
    && after[..|before|] == before
    && forall k :: 0 <= k < |ids| ==>
         && replies(ids[k]).Ok?
         && after[|before| + 2 * k] == Send(replies(ids[k]).value)
         && after[|before| + 2 * k + 1] == AddLabelRequest(ids[k], labelId)
  }

  lemma LoggedInOrderCons(replies: Replier, before: seq<Request>, middle: seq<Request>, after: seq<Request>,
                          ids: seq<MessageId>, labelId: LabelId)
    requires |ids| > 0 && replies(ids[0]).Ok?
    requires middle == before + [Send(replies(ids[0]).value), AddLabelRequest(ids[0], labelId)]
    requires LoggedInOrder(replies, middle, after, ids[1..], labelId)
    ensures LoggedInOrder(replies, before, after, ids, labelId)
  {
    var n := |before|;
    forall k | 0 <= k < |ids|
      ensures replies(ids[k]).Ok?
      ensures after[n + 2 * k] == Send(replies(ids[k]).value)
      ensures after[n + 2 * k + 1] == AddLabelRequest(ids[k], labelId)
    {
      if k > 0 {
        assert ids[1..][k - 1] == ids[k];
        assert n + 2 * k == |middle| + 2 * (k - 1);
      } else {
        assert after[n] == middle[n];
        assert after[n + 1] == middle[n + 1];
      }
    }
    assert after[..n] == middle[..n];
  }

  /**
   * A cycle in which no message fails sends each reply and then its relabel,
   * message by message in list order, after what was logged before.
   */
  lemma {:induction false} HandleInOrder(replies: Replier, labelsOf: map<MessageId, set<LabelId>>,
                                         requests: seq<Request>, ids: seq<MessageId>, labelId: LabelId)
    requires Handle(replies, labelsOf, requests, ids, labelId).failure.None?
    ensures LoggedInOrder(replies, requests, Handle(replies, labelsOf, requests, ids, labelId).requests, ids, labelId)
    decreases |ids|
  {
    if |ids| > 0 {
      var s := Step(replies, labelsOf, requests, ids[0], labelId);
      var rest := Handle(replies, s.labelsOf, s.requests, ids[1..], labelId);
      assert s.failure.None? && Handle(replies, labelsOf, requests, ids, labelId) == rest;
      HandleInOrder(replies, s.labelsOf, s.requests, ids[1..], labelId);
      assert replies(ids[0]).Ok? && ids[0] in labelsOf;
      LoggedInOrderCons(replies, requests, s.requests, rest.requests, ids, labelId);
    }
  }

  /**
   * Handling `ids` ends in the step for `ids[k]`, taken from where the
   * messages before it, all handled without failure, left the mailbox.
   */
  ghost predicate StopsAt(replies: Replier, labelsOf: map<MessageId, set<LabelId>>,
                          requests: seq<Request>, ids: seq<MessageId>, labelId: LabelId, k: nat)
    requires k < |ids|
  {
    var before := Handle(replies, labelsOf, requests, ids[..k], labelId);
    && before.failure.None?
    && Handle(replies, labelsOf, requests, ids, labelId)
       == Step(replies, before.labelsOf, before.requests, ids[k], labelId)
  }

  /**
   * When a cycle fails, it failed at some message `k`: every message before
   * it was fully handled, message `k` got at most its reply, and no later
   * message was touched.
   */
  lemma {:induction false} HandleStopsAtFirstFailure(replies: Replier, labelsOf: map<MessageId, set<LabelId>>,
                                                     requests: seq<Request>, ids: seq<MessageId>, labelId: LabelId)
    requires Handle(replies, labelsOf, requests, ids, labelId).failure.Some?
    ensures exists k :: 0 <= k < |ids| && StopsAt(replies, labelsOf, requests, ids, labelId, k)
    decreases |ids|
  {
    var s := Step(replies, labelsOf, requests, ids[0], labelId);
    if s.failure.Some? {
      assert ids[..0] == [];
      assert StopsAt(replies, labelsOf, requests, ids, labelId, 0);
    } else {
      HandleStopsAtFirstFailure(replies, s.labelsOf, s.requests, ids[1..], labelId);
      var k :| 0 <= k < |ids[1..]| && StopsAt(replies, s.labelsOf, s.requests, ids[1..], labelId, k);
      assert ids[..k + 1][0] == ids[0] && ids[..k + 1][1..] == ids[1..][..k];
      assert ids[1..][k] == ids[k + 1];
      assert StopsAt(replies, labelsOf, requests, ids, labelId, k + 1);
    }
  }

  /**
   * A cycle never adds or removes message ids, and leaves the labels of every
   * message it did not list as they were.
   */
  lemma {:induction false} HandleFrame(replies: Replier, labelsOf: map<MessageId, set<LabelId>>,
                                       requests: seq<Request>, ids: seq<MessageId>, labelId: LabelId)
    ensures var p := Handle(replies, labelsOf, requests, ids, labelId);
      && p.labelsOf.Keys == labelsOf.Keys
      && forall x :: x in labelsOf && x !in ids ==> p.labelsOf[x] == labelsOf[x]
    decreases |ids|
  {
    if |ids| > 0 {
      var s := Step(replies, labelsOf, requests, ids[0], labelId);
      if s.failure.None? {
        HandleFrame(replies, s.labelsOf, s.requests, ids[1..], labelId);
        assert ids == [ids[0]] + ids[1..];
      }
    }
  }

  /**
   * After a cycle with no failure, every listed message carries the handled
   * label and is out of the inbox.
   */
  lemma {:induction false} HandledAreRelabelled(replies: Replier, labelsOf: map<MessageId, set<LabelId>>,
                                                requests: seq<Request>, ids: seq<MessageId>, labelId: LabelId)
    requires labelId != Inbox
    requires Handle(replies, labelsOf, requests, ids, labelId).failure.None?
    ensures var p := Handle(replies, labelsOf, requests, ids, labelId);
      forall k :: 0 <= k < |ids| ==> ids[k] in p.labelsOf && labelId in p.labelsOf[ids[k]] && Inbox !in p.labelsOf[ids[k]]
    decreases |ids|
  {
    if |ids| > 0 {
      var s := Step(replies, labelsOf, requests, ids[0], labelId);
      var p := Handle(replies, labelsOf, requests, ids, labelId);
      HandledAreRelabelled(replies, s.labelsOf, s.requests, ids[1..], labelId);
      RelabelEffect(labelsOf, ids[0], labelId);
      HandleFrame(replies, s.labelsOf, s.requests, ids[1..], labelId);
      forall k | 0 <= k < |ids|
        ensures ids[k] in p.labelsOf && labelId in p.labelsOf[ids[k]] && Inbox !in p.labelsOf[ids[k]]
      {
        if k > 0 {
          assert ids[1..][k - 1] == ids[k];
        } else if ids[0] in ids[1..] {
          var j :| 0 <= j < |ids[1..]| && ids[1..][j] == ids[0];
        }
      }
    }
  }

  /**
   * Three candidates where the second has no reply: the first is replied to
   * and relabelled, the cycle stops with the second's failure, and the third
   * is neither replied to nor relabelled.
   */
  lemma SecondFailureSkipsThird(replies: Replier, labelsOf: map<MessageId, set<LabelId>>, requests: seq<Request>,
                                a: MessageId, b: MessageId, c: MessageId, labelId: LabelId)
    requires replies(a).Ok? && a in labelsOf && replies(b).Err?
    ensures Handle(replies, labelsOf, requests, [a, b, c], labelId)
            == Progress(ApplyModify(labelsOf, a, [labelId], [Inbox]).value,
                        requests + [Send(replies(a).value), AddLabelRequest(a, labelId)],
                        Some(replies(b).error))
  {
    var s := Step(replies, labelsOf, requests, a, labelId);
    assert [a, b, c][1..] == [b, c];
    assert Handle(replies, s.labelsOf, s.requests, [b, c], labelId) == Step(replies, s.labelsOf, s.requests, b, labelId);
  }

  /** An absent or empty scan result sends nothing and relabels nothing. */
  lemma EmptyScanChangesNothing(replies: Replier, labelsOf: map<MessageId, set<LabelId>>,
                                requests: seq<Request>, labelId: LabelId)
    ensures Cycle(replies, labelsOf, requests, ScanListed(None), labelId) == Progress(labelsOf, requests, None)
    ensures Cycle(replies, labelsOf, requests, ScanListed(Some([])), labelId) == Progress(labelsOf, requests, None)
  {
  }

  /**
   * The interval of index.js:183, `Math.floor(Math.random() * 76 + 45) * 1000`,
   * for the draw `k = Math.floor(Math.random() * 76)`; it is drawn once and
   * every later callback reuses it.
   */
  function IntervalMs(k: nat): (ms: nat)
    requires k <= 75
    ensures 45000 <= ms <= 120000 && ms % 1000 == 0
  {
    (45 + k) * 1000
  }

  /**
   * The abstract mailbox the script talks to, and the operations it issues
   * against it.  `replies` is what `sendReply` derives for each message from
   * the mailbox's metadata; it is fixed once the mailbox exists.
   */
  class Account {
    const metadata: map<MessageId, seq<Header>>
    const replies: Replier := RepliesFrom(metadata)
    var labelsOf: map<MessageId, set<LabelId>>
    var requests: seq<Request>

    constructor(metadata: map<MessageId, seq<Header>>, labelsOf: map<MessageId, set<LabelId>>)
      ensures this.metadata == metadata && replies == RepliesFrom(metadata)
      ensures this.labelsOf == labelsOf && requests == []
    {
      this.metadata := metadata;
      this.labelsOf := labelsOf;
      requests := [];
    }

    /** `sendReply` (index.js:71-112): one send of the composed reply, or the failure before it. */
    method SendReply(id: MessageId) returns (failure: Option<Failure>)
      modifies this`requests
      ensures replies(id).Ok? ==> failure.None? && requests == old(requests) + [Send(replies(id).value)]
      ensures replies(id).Err? ==> failure == Some(replies(id).error) && requests == old(requests)
    {
      var reply := replies(id);
      match reply
      case Err(f) =>
        failure := Some(f);
      case Ok(raw) =>
        requests := requests + [Send(raw)];
        failure := None;
    }

    /** `addLabel` (index.js:144-154): the relabel request, applied by the mailbox. */
    method AddLabel(id: MessageId, labelId: LabelId) returns (failure: Option<Failure>)
      modifies this`labelsOf, this`requests
      ensures var req := AddLabelRequest(id, labelId);
              match ApplyModify(old(labelsOf), id, req.add, req.remove)
              case Ok(m) => failure.None? && labelsOf == m && requests == old(requests) + [req]
              case Err(e) => failure == Some(Api(e)) && labelsOf == old(labelsOf) && requests == old(requests)
    {
      var req := AddLabelRequest(id, labelId);
      var result := ApplyModify(labelsOf, id, req.add, req.remove);
      match result
      case Err(e) =>
        failure := Some(Api(e));
      case Ok(m) =>
        labelsOf := m;
        requests := requests + [req];
        failure := None;
    }

    /**
     * One interval callback (index.js:165-182): scan, then for each candidate
     * in list order reply and relabel, the first failure ending the cycle.
     */
    method RunCycle(scan: ScanAnswer, labelId: LabelId) returns (failure: Option<Failure>)
      modifies this`labelsOf, this`requests
      ensures Progress(labelsOf, requests, failure) == Cycle(replies, old(labelsOf), old(requests), scan, labelId)
    {
      var listed := UnrepliedMessages(scan);
      if listed.Err? {
        return Some(Api(listed.error));
      }
      var ids := listed.value;
      var i := 0;
      while i < |ids|
        invariant 0 <= i <= |ids|
        invariant Handle(replies, labelsOf, requests, ids[i..], labelId)
                  == Handle(replies, old(labelsOf), old(requests), ids, labelId)
      {
        ghost var step := Step(replies, labelsOf, requests, ids[i], labelId);
        assert ids[i..][0] == ids[i] && ids[i..][1..] == ids[i + 1..];
        failure := SendReply(ids[i]);
        if failure.Some? {
          return;
        }
        failure := AddLabel(ids[i], labelId);
        if failure.Some? {
          return;
        }
        assert labelsOf == step.labelsOf && requests == step.requests;
        i := i + 1;
      }
      failure := None;
    }
  }
}
