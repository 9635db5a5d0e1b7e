/**
  One reconciliation sweep: for every visited resource type, list it page by
  page following continue tokens, and for every listed item that has
  expired issue one delete request followed by one event.

  The cluster is abstract: `list` is what the API server answers to the n-th
  list request of the pass for a resource type and continue token (so a
  retried request may be answered differently), and `deleteError` is the
  error a delete request fails with, if any. The sweep's observable
  behaviour is a trace of the requests it sends and the events it emits.
 */
module Sweep {
  import opened Wrappers
  import opened Discovery
  import opened Expiry

  /** The page size every list request asks for. */
  const ListLimit: nat := 500

  const ReasonDeleted: string := "DeletedExpiredTTL"
  const ReasonDeleteFailed: string := "FailedToDeleteExpiredTTL"

  /** The server's answer to one list request. */
  datatype Reply = Page(items: seq<Item>, continueToken: string) | ListError(message: string)

  datatype Cluster = Cluster(
    list: (Gvr, string, nat) -> Reply,
    deleteError: (Gvr, string, string) -> Option<string>)

  /** An event attached to an object: namespace, kind, name, reason, message, and warning-or-normal. */
  datatype Event = Event(namespace: string, kind: string, name: string, reason: string, message: string, warning: bool)

  /** What the sweep does that the cluster can observe. */
  datatype Action =
    | ListRequest(gvr: Gvr, continueToken: string, limit: nat)
    | DeleteRequest(gvr: Gvr, namespace: string, name: string)
    | EmitEvent(event: Event)

  /** The address of one object. */
  datatype ObjectRef = ObjectRef(gvr: Gvr, namespace: string, name: string)

  // ---------------------------------------------------------------------------
  // Reading a trace

  /** The objects a trace asks to delete, in order. */
  function Deletions(trace: seq<Action>): seq<ObjectRef>
  {
    if |trace| == 0 then []
    else
      (match trace[0]
       case DeleteRequest(gvr, namespace, name) => [ObjectRef(gvr, namespace, name)]
       case _ => []) + Deletions(trace[1..])
  }

  /** The continue tokens of the list requests of a trace, in order. */
  function RequestTokens(trace: seq<Action>): seq<string>
  {
    if |trace| == 0 then []
    else
      (match trace[0]
       case ListRequest(_, token, _) => [token]
       case _ => []) + RequestTokens(trace[1..])
  }

  lemma ConcatAssoc<T>(x: seq<T>, y: seq<T>, z: seq<T>)
    ensures x + (y + z) == (x + y) + z
  {
  }

  lemma {:induction false} DeletionsAppend(a: seq<Action>, b: seq<Action>)
    ensures Deletions(a + b) == Deletions(a) + Deletions(b)
    decreases |a|
  {
    if |a| == 0 {
      assert a + b == b;
    } else {
      assert (a + b)[0] == a[0] && (a + b)[1..] == a[1..] + b;
      DeletionsAppend(a[1..], b);
      var head := match a[0] case DeleteRequest(gvr, namespace, name) => [ObjectRef(gvr, namespace, name)] case _ => [];
      assert Deletions(a) == head + Deletions(a[1..]);
      assert Deletions(a + b) == head + Deletions(a[1..] + b);
      ConcatAssoc(head, Deletions(a[1..]), Deletions(b));
    }
  }

  lemma {:induction false} RequestTokensAppend(a: seq<Action>, b: seq<Action>)
    ensures RequestTokens(a + b) == RequestTokens(a) + RequestTokens(b)
    decreases |a|
  {
    if |a| == 0 {
      assert a + b == b;
    } else {
      assert (a + b)[0] == a[0] && (a + b)[1..] == a[1..] + b;
      RequestTokensAppend(a[1..], b);
      var head := match a[0] case ListRequest(_, token, _) => [token] case _ => [];
      assert RequestTokens(a) == head + RequestTokens(a[1..]);
      assert RequestTokens(a + b) == head + RequestTokens(a[1..] + b);
      ConcatAssoc(head, RequestTokens(a[1..]), RequestTokens(b));
    }
  }

  /**
    `event` is the one the source emits after deleting the object: a normal
    "deleted" event when the delete succeeded, a warning "failed" event when
    it did not.
   */
  predicate Reports(event: Event, gvr: Gvr, namespace: string, name: string, cluster: Cluster)
  {
    && event.namespace == namespace
    && event.name == name
    && match cluster.deleteError(gvr, namespace, name)
       case None => event.reason == ReasonDeleted && !event.warning
       case Some(_) => event.reason == ReasonDeleteFailed && event.warning
  }

  /** The action at `k`, when it is a delete request, is immediately followed by the event reporting it. */
  predicate DeleteReportedAt(trace: seq<Action>, k: int, cluster: Cluster)
    requires 0 <= k < |trace|
  {
    trace[k].DeleteRequest? ==>
      && k + 1 < |trace|
      && trace[k + 1].EmitEvent?
      && Reports(trace[k + 1].event, trace[k].gvr, trace[k].namespace, trace[k].name, cluster)
  }

  /** The action at `k`, when it is an event, immediately follows a delete request. */
  predicate EventFollowsDeleteAt(trace: seq<Action>, k: int)
    requires 0 <= k < |trace|
  {
    trace[k].EmitEvent? ==> 0 < k && trace[k - 1].DeleteRequest?
  }

  /**
    Every delete request is immediately followed by the event reporting its
    outcome, and every event immediately follows a delete request.
   */
  predicate Answered(trace: seq<Action>, cluster: Cluster)
  {
    forall k :: 0 <= k < |trace| ==> DeleteReportedAt(trace, k, cluster) && EventFollowsDeleteAt(trace, k)
  }

  lemma AnsweredAppend(a: seq<Action>, b: seq<Action>, cluster: Cluster)
    requires Answered(a, cluster) && Answered(b, cluster)
    ensures Answered(a + b, cluster)
  {
    var t := a + b;
    forall k | 0 <= k < |t|
      ensures DeleteReportedAt(t, k, cluster) && EventFollowsDeleteAt(t, k)
    {
      if k < |a| {
        assert DeleteReportedAt(a, k, cluster) && EventFollowsDeleteAt(a, k);
        assert t[k] == a[k];
        if k + 1 < |a| {
          assert t[k + 1] == a[k + 1];
        }
        if 0 < k {
          assert t[k - 1] == a[k - 1];
        }
      } else {
        var j := k - |a|;
        assert DeleteReportedAt(b, j, cluster) && EventFollowsDeleteAt(b, j);
        assert t[k] == b[j];
        if j + 1 < |b| {
          assert t[k + 1] == b[j + 1];
        }
        if 0 < j {
          assert t[k - 1] == b[j - 1];
        }
      }
    }
  }

  /** Every request of the trace is addressed to one of `gvrs`; every list request asks for a page of ListLimit. */
  predicate Addresses(trace: seq<Action>, gvrs: seq<Gvr>)
  {
    && (forall k :: 0 <= k < |trace| && !trace[k].EmitEvent? ==> trace[k].gvr in gvrs)
    && (forall k :: 0 <= k < |trace| && trace[k].ListRequest? ==> trace[k].limit == ListLimit)
  }

  lemma AddressesAppend(a: seq<Action>, b: seq<Action>, gvrs: seq<Gvr>)
    requires Addresses(a, gvrs) && Addresses(b, gvrs)
    ensures Addresses(a + b, gvrs)
  {
    var t := a + b;
    forall k | 0 <= k < |t|
      ensures !t[k].EmitEvent? ==> t[k].gvr in gvrs
      ensures t[k].ListRequest? ==> t[k].limit == ListLimit
    {
      if k < |a| {
        assert t[k] == a[k];
      } else {
        assert t[k] == b[k - |a|];
      }
    }
  }

  /** A trace addressed to `gvrs` is addressed to any `wider` list that holds all of them. */
  lemma AddressesWiden(trace: seq<Action>, gvrs: seq<Gvr>, wider: seq<Gvr>)
    requires Addresses(trace, gvrs)
    requires forall g :: g in gvrs ==> g in wider
    ensures Addresses(trace, wider)
  {
  }

  // ---------------------------------------------------------------------------
  // Items

  /** The references of the expired items among `items`, in order: the reference against which deletion is judged. */
  function ExpiredRefs(gvr: Gvr, items: seq<Item>, env: Env): seq<ObjectRef>
  {
    if |items| == 0 then []
    else
      (if Evaluate(items[0], env).Expired? then [ObjectRef(gvr, items[0].namespace, items[0].name)] else [])
      + ExpiredRefs(gvr, items[1..], env)
  }

  lemma {:induction false} ExpiredRefsAppend(gvr: Gvr, a: seq<Item>, b: seq<Item>, env: Env)
    ensures ExpiredRefs(gvr, a + b, env) == ExpiredRefs(gvr, a, env) + ExpiredRefs(gvr, b, env)
    decreases |a|
  {
    if |a| == 0 {
      assert a + b == b;
    } else {
      assert (a + b)[1..] == a[1..] + b;
      ExpiredRefsAppend(gvr, a[1..], b, env);
    }
  }

  /** The event emitted after the delete request for `item`, whose TTL text is `ttl`. */
  function DeleteEvent(item: Item, ttl: string, error: Option<string>): Event
  {
    match error
    case None =>
      Event(item.namespace, item.kind, item.name, ReasonDeleted,
            "Deleted resource because " + ttl + " or more has elapsed", false)
    case Some(e) =>
      Event(item.namespace, item.kind, item.name, ReasonDeleteFailed,
            "Unable to delete expired resource:" + e, true)
  }

  /** What the sweep does with one listed item: nothing, or one delete request and its event. */
  function ItemActions(gvr: Gvr, item: Item, env: Env, cluster: Cluster): seq<Action>
  {
    match Evaluate(item, env)
    case Expired(ttl, _) =>
      [DeleteRequest(gvr, item.namespace, item.name),
       EmitEvent(DeleteEvent(item, ttl, cluster.deleteError(gvr, item.namespace, item.name)))]
    case _ => []
  }

  /**
    An item without a TTL annotation, with a TTL that does not parse, or that
    has not yet expired causes no request and no event.
   */
  lemma UnexpiredItemUntouched(gvr: Gvr, item: Item, env: Env, cluster: Cluster)
    requires !Evaluate(item, env).Expired?
    ensures ItemActions(gvr, item, env, cluster) == []
  {
  }

  /**
    An expired item gets exactly one delete request, with no retry, followed
    by a "deleted" event or, when the delete fails, a warning "failed" event
    carrying the error.
   */
  lemma ExpiredItemDeletedOnce(gvr: Gvr, item: Item, env: Env, cluster: Cluster)
    requires Evaluate(item, env).Expired?
    ensures var actions := ItemActions(gvr, item, env, cluster);
            && |actions| == 2
            && actions[0] == DeleteRequest(gvr, item.namespace, item.name)
            && actions[1].EmitEvent?
            && Reports(actions[1].event, gvr, item.namespace, item.name, cluster)
            && actions[1].event.kind == item.kind
            && (cluster.deleteError(gvr, item.namespace, item.name).Some? ==>
                  actions[1].event.message ==
                    "Unable to delete expired resource:" + cluster.deleteError(gvr, item.namespace, item.name).value)
  {
  }

  /** Reading a trace of one action. */
  lemma OneAction(a: Action)
    ensures Deletions([a]) == if a.DeleteRequest? then [ObjectRef(a.gvr, a.namespace, a.name)] else []
    ensures RequestTokens([a]) == if a.ListRequest? then [a.continueToken] else []
  {
    assert [a][1..] == [];
  }

  /** A delete request followed by its event, as a trace: one deletion, answered, and no list request. */
  lemma DeletePairShape(gvr: Gvr, item: Item, ttl: string, cluster: Cluster)
    ensures var actions := [DeleteRequest(gvr, item.namespace, item.name),
                            EmitEvent(DeleteEvent(item, ttl, cluster.deleteError(gvr, item.namespace, item.name)))];
            && Deletions(actions) == [ObjectRef(gvr, item.namespace, item.name)]
            && RequestTokens(actions) == []
            && Answered(actions, cluster)
            && Addresses(actions, [gvr])
  {
    var delete := DeleteRequest(gvr, item.namespace, item.name);
    var event := EmitEvent(DeleteEvent(item, ttl, cluster.deleteError(gvr, item.namespace, item.name)));
    OneAction(delete);
    OneAction(event);
    DeletionsAppend([delete], [event]);
    RequestTokensAppend([delete], [event]);
    var actions := [delete] + [event];
    assert DeleteReportedAt(actions, 0, cluster);
    assert EventFollowsDeleteAt(actions, 1);
  }

  /** The actions for one item, as a trace: its deletion if expired, answered, and no list request. */
  lemma ItemActionsShape(gvr: Gvr, item: Item, env: Env, cluster: Cluster)
    ensures var actions := ItemActions(gvr, item, env, cluster);
            && Deletions(actions) == ExpiredRefs(gvr, [item], env)
            && RequestTokens(actions) == []
            && Answered(actions, cluster)
            && Addresses(actions, [gvr])
  {
    assert [item][1..] == [];
    match Evaluate(item, env)
    case Expired(ttl, _) =>
      DeletePairShape(gvr, item, ttl, cluster);
    case _ =>
  }

  /** The requests and events for one page of items: the actions of each item, in page order. */
  function PageActions(gvr: Gvr, items: seq<Item>, env: Env, cluster: Cluster): seq<Action>
  {
    if |items| == 0 then []
    else ItemActions(gvr, items[0], env, cluster) + PageActions(gvr, items[1..], env, cluster)
  }

  /**
    For one page of items, exactly the expired items are deleted, once each
    and in page order, each delete answered by its event, and no list
    request is made.
   */
  lemma {:induction false} PageActionsShape(gvr: Gvr, items: seq<Item>, env: Env, cluster: Cluster)
    ensures Deletions(PageActions(gvr, items, env, cluster)) == ExpiredRefs(gvr, items, env)
    ensures RequestTokens(PageActions(gvr, items, env, cluster)) == []
    ensures Answered(PageActions(gvr, items, env, cluster), cluster)
    ensures Addresses(PageActions(gvr, items, env, cluster), [gvr])
    decreases |items|
  {
    if |items| > 0 {
      var first := ItemActions(gvr, items[0], env, cluster);
      var rest := PageActions(gvr, items[1..], env, cluster);
      ItemActionsShape(gvr, items[0], env, cluster);
      PageActionsShape(gvr, items[1..], env, cluster);
      ExpiredRefsAppend(gvr, [items[0]], items[1..], env);
      assert [items[0]] + items[1..] == items;
      DeletionsAppend(first, rest);
      RequestTokensAppend(first, rest);
      AnsweredAppend(first, rest, cluster);
      AddressesAppend(first, rest, [gvr]);
    }
  }

  /**
    Four pods in "default", listed in one page: one an hour old with TTL "5m",
    one an hour old with TTL "3d", one three days old with TTL "2d", and one
    an hour old without annotations. Exactly the first and the third are
    deleted, in that order.
   */
  lemma OnlyExpiredPodsDeleted(gvr: Gvr, env: Env, cluster: Cluster)
    requires env.parsers.duration("5m") == Some(5 * Minute)
    requires env.parsers.duration("3d") == Some(3 * Day)
    requires env.parsers.duration("2d") == Some(2 * Day)
    ensures var pods := [
              Item("default", "expired-pod-name-1", "Pod", env.now - Hour, map[AnnotationTtl := "5m"]),
              Item("default", "not-expired-pod-name", "Pod", env.now - Hour, map[AnnotationTtl := "3d"]),
              Item("default", "expired-pod-name-2", "Pod", env.now - 72 * Hour, map[AnnotationTtl := "2d"]),
              Item("default", "unannotated-pod-name", "Pod", env.now - Hour, map[])];
            Deletions(PageActions(gvr, pods, env, cluster)) ==
              [ObjectRef(gvr, "default", "expired-pod-name-1"), ObjectRef(gvr, "default", "expired-pod-name-2")]
  {
    var pods := [
      Item("default", "expired-pod-name-1", "Pod", env.now - Hour, map[AnnotationTtl := "5m"]),
      Item("default", "not-expired-pod-name", "Pod", env.now - Hour, map[AnnotationTtl := "3d"]),
      Item("default", "expired-pod-name-2", "Pod", env.now - 72 * Hour, map[AnnotationTtl := "2d"]),
      Item("default", "unannotated-pod-name", "Pod", env.now - Hour, map[])];
    assert forall k :: 0 <= k < 4 ==> AnnotationRefreshedAt !in pods[k].annotations;
    assert Evaluate(pods[0], env).Expired?;
    assert !Evaluate(pods[1], env).Expired?;
    assert Evaluate(pods[2], env).Expired?;
    assert !Evaluate(pods[3], env).Expired?;
    assert pods[1..][1..] == pods[2..] && pods[2..][1..] == pods[3..] && pods[3..][1..] == [];
    assert ExpiredRefs(gvr, pods[3..], env) == [];
    assert ExpiredRefs(gvr, pods[2..], env) == [ObjectRef(gvr, "default", "expired-pod-name-2")];
    assert ExpiredRefs(gvr, pods[1..], env) == ExpiredRefs(gvr, pods[2..], env);
    PageActionsShape(gvr, pods, env, cluster);
  }

  // ---------------------------------------------------------------------------
  // Pagination

  /** The continue token the request after `reply` carries: the page's token, or the same token again after an error. */
  function TokenAfter(reply: Reply, token: string): string
  {
    match reply
    case Page(_, next) => next
    case ListError(_) => token
  }

  /** A successful reply with an empty continue token ends the listing of a resource type. */
  predicate IsLastPage(reply: Reply)
  {
    reply.Page? && reply.continueToken == ""
  }

  /** The items of the successful replies, in order. */
  function PagedItems(replies: seq<Reply>): seq<Item>
  {
    if |replies| == 0 then []
    else
      (match replies[0]
       case Page(items, _) => items
       case ListError(_) => []) +
      PagedItems(replies[1..])
  }

  /** The actions of one round of the listing loop: the list request, then the page's actions if it succeeded. */
  function StepActions(gvr: Gvr, token: string, reply: Reply, env: Env, cluster: Cluster): seq<Action>
  {
    [ListRequest(gvr, token, ListLimit)] +
    (match reply
     case Page(items, _) => PageActions(gvr, items, env, cluster)
     case ListError(_) => [])
  }

  lemma StepActionsShape(gvr: Gvr, token: string, reply: Reply, env: Env, cluster: Cluster)
    ensures var actions := StepActions(gvr, token, reply, env, cluster);
            && RequestTokens(actions) == [token]
            && Deletions(actions) == ExpiredRefs(gvr, if reply.Page? then reply.items else [], env)
            && Answered(actions, cluster)
            && Addresses(actions, [gvr])
  {
    var request := ListRequest(gvr, token, ListLimit);
    OneAction(request);
    match reply
    case Page(items, _) =>
      var page := PageActions(gvr, items, env, cluster);
      PageActionsShape(gvr, items, env, cluster);
      DeletionsAppend([request], page);
      RequestTokensAppend([request], page);
      AnsweredAppend([request], page, cluster);
      AddressesAppend([request], page, [gvr]);
    case ListError(_) =>
      assert StepActions(gvr, token, reply, env, cluster) == [request];
  }

  /**
    What a listing does along the server's answers: the round of each page,
    from the request that carries `token` on, each page's deletes and events
    before the next request, until a last page is received or the fuel runs
    out.
   */
  function ListTrace(gvr: Gvr, list: (Gvr, string, nat) -> Reply, index: nat, fuel: nat, token: string, env: Env, cluster: Cluster): seq<Action>
    decreases fuel
  {
    if fuel == 0 then []
    else
      var reply := list(gvr, token, index);
      StepActions(gvr, token, reply, env, cluster) +
      (if IsLastPage(reply) then [] else ListTrace(gvr, list, index + 1, fuel - 1, TokenAfter(reply, token), env, cluster))
  }

  /** What is left of a listing's trace: nothing once it has ended, otherwise the trace from `token` on. */
  function ListTraceRest(gvr: Gvr, list: (Gvr, string, nat) -> Reply, index: nat, fuel: nat, ended: bool, token: string,
                         env: Env, cluster: Cluster): seq<Action>
  {
    if ended then [] else ListTrace(gvr, list, index, fuel, token, env, cluster)
  }

  /**
    A trace accounts for the requests `tokens` and their `replies`: its list
    requests carry exactly `tokens`, it deletes exactly the expired items of
    the successful pages, it keeps every delete paired with its event, and
    it addresses only `gvr`.
   */
  predicate Accounts(trace: seq<Action>, gvr: Gvr, env: Env, cluster: Cluster, tokens: seq<string>, replies: seq<Reply>)
  {
    && |tokens| == |replies|
    && RequestTokens(trace) == tokens
    && Deletions(trace) == ExpiredRefs(gvr, PagedItems(replies), env)
    && Answered(trace, cluster)
    && Addresses(trace, [gvr])
  }

  /** A listing's trace accounts for the listing's requests and replies. */
  lemma {:induction false} ListTraceAccounts(gvr: Gvr, list: (Gvr, string, nat) -> Reply, index: nat, fuel: nat, token: string, env: Env, cluster: Cluster)
    ensures Accounts(ListTrace(gvr, list, index, fuel, token, env, cluster), gvr, env, cluster,
                     ListFrom(gvr, list, index, fuel, token).tokens, ListFrom(gvr, list, index, fuel, token).replies)
    decreases fuel
  {
    if fuel > 0 {
      var reply := list(gvr, token, index);
      var a := StepActions(gvr, token, reply, env, cluster);
      StepActionsShape(gvr, token, reply, env, cluster);
      var b: seq<Action> := [];
      var l := Listing([], []);
      if !IsLastPage(reply) {
        var next := TokenAfter(reply, token);
        b := ListTrace(gvr, list, index + 1, fuel - 1, next, env, cluster);
        l := ListFrom(gvr, list, index + 1, fuel - 1, next);
        ListTraceAccounts(gvr, list, index + 1, fuel - 1, next, env, cluster);
      }
      assert ListTrace(gvr, list, index, fuel, token, env, cluster) == a + b;
      assert ListFrom(gvr, list, index, fuel, token) == Listing([token] + l.tokens, [reply] + l.replies);
      assert ([reply] + l.replies)[0] == reply && ([reply] + l.replies)[1..] == l.replies;
      DeletionsAppend(a, b);
      RequestTokensAppend(a, b);
      AnsweredAppend(a, b, cluster);
      AddressesAppend(a, b, [gvr]);
      ExpiredRefsAppend(gvr, if reply.Page? then reply.items else [], PagedItems(l.replies), env);
    }
  }

  /** The token the next request of a listing carries. */
  function NextToken(tokens: seq<string>, replies: seq<Reply>): string
    requires |tokens| == |replies|
  {
    if |replies| == 0 then "" else TokenAfter(replies[|replies| - 1], tokens[|tokens| - 1])
  }

  /** The requests of one listing and the replies they received. */
  datatype Listing = Listing(tokens: seq<string>, replies: seq<Reply>)

  /**
    The listing of one resource type as a function of the server's answers
    alone, request by request: send `token`, and stop after a last page or
    when the fuel is spent, otherwise go on with the token the reply calls for.
   */
  function ListFrom(gvr: Gvr, list: (Gvr, string, nat) -> Reply, index: nat, fuel: nat, token: string): (l: Listing)
    ensures |l.tokens| == |l.replies| <= fuel
    decreases fuel
  {
    if fuel == 0 then Listing([], [])
    else
      var reply := list(gvr, token, index);
      if IsLastPage(reply) then Listing([token], [reply])
      else
        var rest := ListFrom(gvr, list, index + 1, fuel - 1, TokenAfter(reply, token));
        Listing([token] + rest.tokens, [reply] + rest.replies)
  }

  /** The `k`-th reply is the server's answer to the `k`-th request, the `index + k`-th of the pass. */
  predicate ReplyAt(gvr: Gvr, list: (Gvr, string, nat) -> Reply, index: nat, tokens: seq<string>, replies: seq<Reply>, k: int)
    requires 0 <= k < |tokens| && |tokens| == |replies|
  {
    replies[k] == list(gvr, tokens[k], index + k)
  }

  /** The `k`-th request carries the token the reply to the one before it called for. */
  predicate ChainedAt(tokens: seq<string>, replies: seq<Reply>, k: int)
    requires 0 < k < |tokens| && |tokens| == |replies|
  {
    tokens[k] == TokenAfter(replies[k - 1], tokens[k - 1])
  }

  /** The `k`-th reply does not end the listing. */
  predicate PendingAt(replies: seq<Reply>, k: int)
    requires 0 <= k < |replies|
  {
    !IsLastPage(replies[k])
  }

  /**
    How a listing threads its tokens: the first request carries `token`,
    each later one the token the previous reply called for (the same token
    again after an error), the n-th received the server's answer to it, and
    no reply before the latest was a last page.
   */
  predicate Threaded(gvr: Gvr, list: (Gvr, string, nat) -> Reply, index: nat, token: string,
                     tokens: seq<string>, replies: seq<Reply>)
  {
    && |tokens| == |replies|
    && (|tokens| > 0 ==> tokens[0] == token)
    && (forall k :: 0 <= k < |tokens| ==> ReplyAt(gvr, list, index, tokens, replies, k))
    && (forall k :: 0 < k < |tokens| ==> ChainedAt(tokens, replies, k))
    && (forall k :: 0 <= k < |replies| - 1 ==> PendingAt(replies, k))
  }

  /** A first request whose reply is not a last page, before a threaded listing from the token it calls for. */
  lemma ThreadedCons(gvr: Gvr, list: (Gvr, string, nat) -> Reply, index: nat, token: string, next: string,
                     tokens: seq<string>, replies: seq<Reply>)
    requires !IsLastPage(list(gvr, token, index)) && next == TokenAfter(list(gvr, token, index), token)
    requires Threaded(gvr, list, index + 1, next, tokens, replies)
    ensures Threaded(gvr, list, index, token, [token] + tokens, [list(gvr, token, index)] + replies)
  {
    var tokens', replies' := [token] + tokens, [list(gvr, token, index)] + replies;
    forall k | 0 < k < |replies'|
      ensures replies'[k] == replies[k - 1] && tokens'[k] == tokens[k - 1]
    {
    }
    forall k | 0 <= k < |tokens'|
      ensures ReplyAt(gvr, list, index, tokens', replies', k)
    {
      if k > 0 {
        assert ReplyAt(gvr, list, index + 1, tokens, replies, k - 1);
      }
    }
    forall k | 0 < k < |tokens'|
      ensures ChainedAt(tokens', replies', k)
    {
      if k > 1 {
        assert ChainedAt(tokens, replies, k - 1);
      }
    }
    forall k | 0 <= k < |replies'| - 1
      ensures PendingAt(replies', k)
    {
      if k > 0 {
        assert PendingAt(replies, k - 1);
      }
    }
  }

  /**
    What the listing is: its requests are threaded, it makes at least one
    request when it may, and unless it ended with a last page it used all
    of its fuel.
   */
  lemma {:induction false} ListFromThreaded(gvr: Gvr, list: (Gvr, string, nat) -> Reply, index: nat, fuel: nat,
                                            token: string)
    ensures var l := ListFrom(gvr, list, index, fuel, token);
            && Threaded(gvr, list, index, token, l.tokens, l.replies)
            && (fuel > 0 ==> |l.replies| > 0)
            && (!(|l.replies| > 0 && IsLastPage(l.replies[|l.replies| - 1])) ==> |l.replies| == fuel)
    decreases fuel
  {
    if fuel > 0 {
      var reply := list(gvr, token, index);
      if !IsLastPage(reply) {
        var next := TokenAfter(reply, token);
        ListFromThreaded(gvr, list, index + 1, fuel - 1, next);
        ThreadedCons(gvr, list, index, token, next, ListFrom(gvr, list, index + 1, fuel - 1, next).tokens,
                     ListFrom(gvr, list, index + 1, fuel - 1, next).replies);
      }
    }
  }

  /**
    How many list requests a listing or a sweep makes, and whether it ended:
    for the listing of one resource type, with a last page; for a sweep, with
    every resource type listed to the end.
   */
  datatype SweepSummary = SweepSummary(requests: nat, finished: bool)

  /** How many requests the listing of one resource type makes, and whether it ends with a last page. */
  function ListRun(gvr: Gvr, list: (Gvr, string, nat) -> Reply, index: nat, fuel: nat, token: string): (r: SweepSummary)
    ensures r.requests <= fuel
    ensures !r.finished ==> r.requests == fuel
    decreases fuel
  {
    if fuel == 0 then SweepSummary(0, false)
    else
      var reply := list(gvr, token, index);
      if IsLastPage(reply) then SweepSummary(1, true)
      else
        var rest := ListRun(gvr, list, index + 1, fuel - 1, TokenAfter(reply, token));
        SweepSummary(1 + rest.requests, rest.finished)
  }

  /** The count of a listing agrees with the listing itself. */
  lemma {:induction false} ListRunCounts(gvr: Gvr, list: (Gvr, string, nat) -> Reply, index: nat, fuel: nat, token: string)
    ensures var l := ListFrom(gvr, list, index, fuel, token);
            ListRun(gvr, list, index, fuel, token) ==
              SweepSummary(|l.replies|, |l.replies| > 0 && IsLastPage(l.replies[|l.replies| - 1]))
    decreases fuel
  {
    if fuel > 0 {
      var reply := list(gvr, token, index);
      if !IsLastPage(reply) {
        ListRunCounts(gvr, list, index + 1, fuel - 1, TokenAfter(reply, token));
      }
    }
  }

  function ConcatListings(first: Listing, second: Listing): Listing
  {
    Listing(first.tokens + second.tokens, first.replies + second.replies)
  }

  /** What is left of a listing: nothing once it has ended, otherwise the listing from `token` on. */
  function ListingRest(gvr: Gvr, list: (Gvr, string, nat) -> Reply, index: nat, fuel: nat, ended: bool, token: string): Listing
  {
    if ended then Listing([], []) else ListFrom(gvr, list, index, fuel, token)
  }

  /** The listing so far followed by what is left of it is the whole listing. */
  predicate ListedReplies(gvr: Gvr, list: (Gvr, string, nat) -> Reply, start: nat, fuel: nat,
                          tokens: seq<string>, replies: seq<Reply>, ended: bool, token: string)
  {
    && |replies| <= fuel
    && ListFrom(gvr, list, start, fuel, "") ==
         ConcatListings(Listing(tokens, replies),
                        ListingRest(gvr, list, start + |replies|, fuel - |replies|, ended, token))
  }

  /** One more request moves a reply from the remaining listing to the listing so far. */
  lemma ListFromStep(gvr: Gvr, list: (Gvr, string, nat) -> Reply, start: nat, fuel: nat,
                     tokens: seq<string>, replies: seq<Reply>, token: string, reply: Reply,
                     tokens': seq<string>, replies': seq<Reply>, ended': bool, token': string)
    requires ListedReplies(gvr, list, start, fuel, tokens, replies, false, token) && |replies| < fuel
    requires reply == list(gvr, token, start + |replies|)
    requires tokens' == tokens + [token] && replies' == replies + [reply]
    requires ended' == IsLastPage(reply) && token' == TokenAfter(reply, token)
    ensures ListedReplies(gvr, list, start, fuel, tokens', replies', ended', token')
  {
    var rest := ListingRest(gvr, list, start + |replies'|, fuel - |replies'|, ended', token');
    assert ListFrom(gvr, list, start + |replies|, fuel - |replies|, token) ==
             Listing([token] + rest.tokens, [reply] + rest.replies);
    assert tokens + ([token] + rest.tokens) == tokens' + rest.tokens;
    assert replies + ([reply] + rest.replies) == replies' + rest.replies;
  }

  /** The trace so far followed by the rounds still to come is the whole trace of the listing. */
  predicate ListedTrace(gvr: Gvr, cluster: Cluster, env: Env, start: nat, fuel: nat, trace: seq<Action>,
                        count: nat, ended: bool, token: string)
  {
    && count <= fuel
    && ListTrace(gvr, cluster.list, start, fuel, "", env, cluster) ==
         trace + ListTraceRest(gvr, cluster.list, start + count, fuel - count, ended, token, env, cluster)
  }

  /** One more request moves its round from the remaining trace to the trace so far. */
  lemma ListTraceStep(gvr: Gvr, cluster: Cluster, env: Env, start: nat, fuel: nat,
                      trace: seq<Action>, count: nat, token: string, reply: Reply,
                      trace': seq<Action>, count': nat, ended': bool, token': string)
    requires ListedTrace(gvr, cluster, env, start, fuel, trace, count, false, token) && count < fuel
    requires reply == cluster.list(gvr, token, start + count)
    requires trace' == trace + StepActions(gvr, token, reply, env, cluster) && count' == count + 1
    requires ended' == IsLastPage(reply) && token' == TokenAfter(reply, token)
    ensures ListedTrace(gvr, cluster, env, start, fuel, trace', count', ended', token')
  {
    var step := StepActions(gvr, token, reply, env, cluster);
    var rest := ListTraceRest(gvr, cluster.list, start + count', fuel - count', ended', token', env, cluster);
    assert ListTrace(gvr, cluster.list, start + count, fuel - count, token, env, cluster) == step + rest;
    TraceRegroup(trace, step, rest);
  }

  /** The state of the listing loop after the requests `tokens` received `replies`. */
  predicate Listed(gvr: Gvr, cluster: Cluster, env: Env, start: nat, fuel: nat, trace: seq<Action>,
                   tokens: seq<string>, replies: seq<Reply>, listed: bool, continueToken: string)
  {
    && |tokens| == |replies|
    && continueToken == NextToken(tokens, replies)
    && (listed <==> |replies| > 0 && replies[|replies| - 1].Page?)
    && ListedTrace(gvr, cluster, env, start, fuel, trace, |replies|, listed && continueToken == "", continueToken)
    && ListedReplies(gvr, cluster.list, start, fuel, tokens, replies, listed && continueToken == "", continueToken)
  }

  /** One round of the loop: send the token, record the reply, act on the page. */
  lemma ListedStep(gvr: Gvr, cluster: Cluster, env: Env, start: nat, fuel: nat, trace: seq<Action>,
                   tokens: seq<string>, replies: seq<Reply>, listed: bool, continueToken: string, reply: Reply,
                   trace': seq<Action>, tokens': seq<string>, replies': seq<Reply>, listed': bool,
                   continueToken': string)
    requires Listed(gvr, cluster, env, start, fuel, trace, tokens, replies, listed, continueToken)
    requires (!listed || continueToken != "") && |replies| < fuel
    requires reply == cluster.list(gvr, continueToken, start + |replies|)
    requires trace' == trace + StepActions(gvr, continueToken, reply, env, cluster)
    requires tokens' == tokens + [continueToken] && replies' == replies + [reply]
    requires listed' == reply.Page? && continueToken' == TokenAfter(reply, continueToken)
    ensures Listed(gvr, cluster, env, start, fuel, trace', tokens', replies', listed', continueToken')
  {
    var ended' := listed' && continueToken' == "";
    assert ended' == IsLastPage(reply);
    ListFromStep(gvr, cluster.list, start, fuel, tokens, replies, continueToken, reply,
                 tokens', replies', ended', continueToken');
    ListTraceStep(gvr, cluster, env, start, fuel, trace, |replies|, continueToken, reply,
                  trace', |replies'|, ended', continueToken');
  }

  /**
    What listing one resource type from request number `start` on, with
    `fuel` requests at most, comes to: the requests and replies of the
    reference listing, `done` exactly when it ended with a last page, the
    reference count, and the reference trace, which accounts for the
    listing's requests and deletions.
   */
  predicate ListOutcome(gvr: Gvr, cluster: Cluster, env: Env, start: nat, fuel: nat, trace: seq<Action>,
                       tokens: seq<string>, replies: seq<Reply>, done: bool)
  {
    && Listing(tokens, replies) == ListFrom(gvr, cluster.list, start, fuel, "")
    && (done <==> |replies| > 0 && IsLastPage(replies[|replies| - 1]))
    && Accounts(trace, gvr, env, cluster, tokens, replies)
    && SweepSummary(|replies|, done) == ListRun(gvr, cluster.list, start, fuel, "")
    && trace == ListTrace(gvr, cluster.list, start, fuel, "", env, cluster)
  }

  /** When the listing loop stops, its state is the whole listing. */
  lemma ListedEnd(gvr: Gvr, cluster: Cluster, env: Env, start: nat, fuel: nat, trace: seq<Action>,
                  tokens: seq<string>, replies: seq<Reply>, listed: bool, continueToken: string, done: bool)
    requires Listed(gvr, cluster, env, start, fuel, trace, tokens, replies, listed, continueToken)
    requires !((!listed || continueToken != "") && |replies| < fuel)
    requires done == (listed && continueToken == "")
    ensures ListOutcome(gvr, cluster, env, start, fuel, trace, tokens, replies, done)
  {
    ListRunCounts(gvr, cluster.list, start, fuel, "");
    ListTraceAccounts(gvr, cluster.list, start, fuel, "", env, cluster);
    assert tokens + [] == tokens && replies + [] == replies && trace + [] == trace;
  }

  /**
    List one resource type to the end and act on every item, with at most
    `fuel` list requests (the n-th request of the pass being number
    `start + n`). A failed request is retried with the same token; the
    listing ends only after a successful reply with an empty continue token
    (`done`), or when the fuel runs out, which stands for the sweep still
    running when the pass deadline passes.
   */
  method ReconcileResource(gvr: Gvr, cluster: Cluster, env: Env, start: nat, fuel: nat)
    returns (trace: seq<Action>, tokens: seq<string>, replies: seq<Reply>, done: bool)
    ensures ListOutcome(gvr, cluster, env, start, fuel, trace, tokens, replies, done)
  {
    trace, tokens, replies := [], [], [];
    var listed := false;  // whether the latest request returned a page
    var continueToken := "";
    while (!listed || continueToken != "") && |replies| < fuel
      invariant Listed(gvr, cluster, env, start, fuel, trace, tokens, replies, listed, continueToken)
      decreases fuel - |replies|
    {
      ghost var trace0, tokens0, replies0, listed0, token0 := trace, tokens, replies, listed, continueToken;
      var reply := cluster.list(gvr, continueToken, start + |replies|);
      trace := trace + StepActions(gvr, continueToken, reply, env, cluster);
      tokens := tokens + [continueToken];
      replies := replies + [reply];
      if reply.Page? {
        listed := true;
        continueToken := reply.continueToken;
      } else {
        listed := false;
      }
      ListedStep(gvr, cluster, env, start, fuel, trace0, tokens0, replies0, listed0, token0, reply,
                 trace, tokens, replies, listed, continueToken);
    }
    done := listed && continueToken == "";
    ListedEnd(gvr, cluster, env, start, fuel, trace, tokens, replies, listed, continueToken, done);
  }

  // ---------------------------------------------------------------------------
  // The sweep

  /** A sweep that made `requests` requests before going on as `rest`. */
  function PrefixRequests(requests: nat, rest: SweepSummary): SweepSummary
  {
    SweepSummary(requests + rest.requests, rest.finished)
  }

  /** The sweep over `gvrs` as a function of the server's answers to list requests alone. */
  function SweepFrom(gvrs: seq<Gvr>, list: (Gvr, string, nat) -> Reply, index: nat, fuel: nat): (r: SweepSummary)
    ensures r.requests <= fuel
    decreases |gvrs|
  {
    if |gvrs| == 0 then SweepSummary(0, true)
    else
      var first := ListRun(gvrs[0], list, index, fuel, "");
      if !first.finished then first
      else PrefixRequests(first.requests, SweepFrom(gvrs[1..], list, index + first.requests, fuel - first.requests))
  }

  /** Listing the next resource type moves its requests from the remaining sweep to the sweep so far. */
  lemma SweepStep(gvrs: seq<Gvr>, list: (Gvr, string, nat) -> Reply, fuel: nat, i: nat, requests: nat, left: nat,
                  count: nat, done: bool)
    requires i < |gvrs|
    requires SweepSummary(count, done) == ListRun(gvrs[i], list, requests, left, "")
    requires SweepFrom(gvrs, list, 0, fuel) == PrefixRequests(requests, SweepFrom(gvrs[i..], list, requests, left))
    ensures count <= left
    ensures done ==>
              SweepFrom(gvrs, list, 0, fuel) ==
                PrefixRequests(requests + count, SweepFrom(gvrs[i + 1..], list, requests + count, left - count))
    ensures !done ==> SweepFrom(gvrs, list, 0, fuel) == SweepSummary(requests + count, false)
  {
    assert gvrs[i..][0] == gvrs[i] && gvrs[i..][1..] == gvrs[i + 1..];
    assert SweepFrom(gvrs[i..], list, requests, left) ==
             if !done then SweepSummary(count, false)
             else PrefixRequests(count, SweepFrom(gvrs[i + 1..], list, requests + count, left - count));
  }

  /** A finished sweep over a non-empty list ended the listing of its first resource type and finished the rest. */
  lemma SweepFromHead(xs: seq<Gvr>, list: (Gvr, string, nat) -> Reply, index: nat, fuel: nat, requests: nat)
    requires |xs| > 0 && SweepFrom(xs, list, index, fuel) == SweepSummary(requests, true)
    ensures ListRun(xs[0], list, index, fuel, "").finished
    ensures SweepFrom(xs[1..], list, index + ListRun(xs[0], list, index, fuel, "").requests,
                      fuel - ListRun(xs[0], list, index, fuel, "").requests) ==
              SweepSummary(requests - ListRun(xs[0], list, index, fuel, "").requests, true)
  {
  }

  /** When the listing of the first resource type ends, a sweep over `xs + ys` goes on with `xs[1..] + ys`. */
  lemma SweepFromAppendHead(xs: seq<Gvr>, ys: seq<Gvr>, list: (Gvr, string, nat) -> Reply, index: nat, fuel: nat)
    requires |xs| > 0 && ListRun(xs[0], list, index, fuel, "").finished
    ensures SweepFrom(xs + ys, list, index, fuel) ==
              PrefixRequests(ListRun(xs[0], list, index, fuel, "").requests,
                             SweepFrom(xs[1..] + ys, list, index + ListRun(xs[0], list, index, fuel, "").requests,
                                       fuel - ListRun(xs[0], list, index, fuel, "").requests))
  {
    var zs := xs + ys;
    assert zs[0] == xs[0] && zs[1..] == xs[1..] + ys;
  }

  /**
    A sweep over `xs + ys` whose first part `xs` finishes with `requests`
    list requests goes on to sweep `ys` from request `index'` with the
    `fuel'` that is left.
   */
  lemma {:induction false} SweepFromConcat(xs: seq<Gvr>, ys: seq<Gvr>, list: (Gvr, string, nat) -> Reply, index: nat, fuel: nat,
                                           requests: nat, index': nat, fuel': nat)
    requires SweepFrom(xs, list, index, fuel) == SweepSummary(requests, true)
    requires index' == index + requests && fuel' + requests == fuel
    ensures SweepFrom(xs + ys, list, index, fuel) == PrefixRequests(requests, SweepFrom(ys, list, index', fuel'))
    decreases |xs|
  {
    if |xs| == 0 {
      assert xs + ys == ys;
    } else {
      SweepFromHead(xs, list, index, fuel, requests);
      var count := ListRun(xs[0], list, index, fuel, "").requests;
      SweepFromConcat(xs[1..], ys, list, index + count, fuel - count, requests - count, index', fuel');
      SweepFromAppendHead(xs, ys, list, index, fuel);
    }
  }

  /**
    What a sweep over `gvrs` does, as a function of the server's answers
    alone: each resource type in order is listed from the empty token,
    beginning with the request after the previous listing's last, and the
    sweep stops after the first listing that does not end with a last page.
   */
  function SweepTrace(gvrs: seq<Gvr>, list: (Gvr, string, nat) -> Reply, index: nat, fuel: nat, env: Env, cluster: Cluster): seq<Action>
    decreases |gvrs|
  {
    if |gvrs| == 0 then []
    else
      var first := ListRun(gvrs[0], list, index, fuel, "");
      ListTrace(gvrs[0], list, index, fuel, "", env, cluster) +
      (if first.finished then SweepTrace(gvrs[1..], list, index + first.requests, fuel - first.requests, env, cluster) else [])
  }

  /**
    The objects a sweep over `gvrs` deletes: the expired items of each
    listing's successful pages, resource type after resource type.
   */
  function SweptRefs(gvrs: seq<Gvr>, list: (Gvr, string, nat) -> Reply, index: nat, fuel: nat, env: Env): seq<ObjectRef>
    decreases |gvrs|
  {
    if |gvrs| == 0 then []
    else
      var first := ListRun(gvrs[0], list, index, fuel, "");
      ExpiredRefs(gvrs[0], PagedItems(ListFrom(gvrs[0], list, index, fuel, "").replies), env) +
      (if first.finished then SweptRefs(gvrs[1..], list, index + first.requests, fuel - first.requests, env) else [])
  }

  /** The continue tokens a sweep over `gvrs` sends, resource type after resource type. */
  function SweptTokens(gvrs: seq<Gvr>, list: (Gvr, string, nat) -> Reply, index: nat, fuel: nat): seq<string>
    decreases |gvrs|
  {
    if |gvrs| == 0 then []
    else
      var first := ListRun(gvrs[0], list, index, fuel, "");
      ListFrom(gvrs[0], list, index, fuel, "").tokens +
      (if first.finished then SweptTokens(gvrs[1..], list, index + first.requests, fuel - first.requests) else [])
  }

  /** A sweep deletes exactly the expired items of its listings' successful pages, listing by listing. */
  lemma {:induction false} SweepTraceDeletions(gvrs: seq<Gvr>, list: (Gvr, string, nat) -> Reply, index: nat, fuel: nat, env: Env, cluster: Cluster)
    ensures Deletions(SweepTrace(gvrs, list, index, fuel, env, cluster)) == SweptRefs(gvrs, list, index, fuel, env)
    decreases |gvrs|
  {
    if |gvrs| > 0 {
      var first := ListRun(gvrs[0], list, index, fuel, "");
      var a := ListTrace(gvrs[0], list, index, fuel, "", env, cluster);
      ListTraceAccounts(gvrs[0], list, index, fuel, "", env, cluster);
      var b: seq<Action> := [];
      if first.finished {
        b := SweepTrace(gvrs[1..], list, index + first.requests, fuel - first.requests, env, cluster);
        SweepTraceDeletions(gvrs[1..], list, index + first.requests, fuel - first.requests, env, cluster);
      }
      assert SweepTrace(gvrs, list, index, fuel, env, cluster) == a + b;
      DeletionsAppend(a, b);
    }
  }

  /** A sweep's list requests carry exactly its listings' tokens, listing by listing. */
  lemma {:induction false} SweepTraceTokens(gvrs: seq<Gvr>, list: (Gvr, string, nat) -> Reply, index: nat, fuel: nat, env: Env, cluster: Cluster)
    ensures RequestTokens(SweepTrace(gvrs, list, index, fuel, env, cluster)) == SweptTokens(gvrs, list, index, fuel)
    decreases |gvrs|
  {
    if |gvrs| > 0 {
      var first := ListRun(gvrs[0], list, index, fuel, "");
      var a := ListTrace(gvrs[0], list, index, fuel, "", env, cluster);
      ListTraceAccounts(gvrs[0], list, index, fuel, "", env, cluster);
      var b: seq<Action> := [];
      if first.finished {
        b := SweepTrace(gvrs[1..], list, index + first.requests, fuel - first.requests, env, cluster);
        SweepTraceTokens(gvrs[1..], list, index + first.requests, fuel - first.requests, env, cluster);
      }
      assert SweepTrace(gvrs, list, index, fuel, env, cluster) == a + b;
      RequestTokensAppend(a, b);
    }
  }

  /** A listing's trace keeps every delete paired with its event and addresses only its own resource type. */
  lemma ListTraceAnswered(gvrs: seq<Gvr>, list: (Gvr, string, nat) -> Reply, index: nat, fuel: nat, env: Env, cluster: Cluster)
    requires |gvrs| > 0
    ensures Answered(ListTrace(gvrs[0], list, index, fuel, "", env, cluster), cluster)
    ensures Addresses(ListTrace(gvrs[0], list, index, fuel, "", env, cluster), gvrs)
  {
    ListTraceAccounts(gvrs[0], list, index, fuel, "", env, cluster);
    AddressesWiden(ListTrace(gvrs[0], list, index, fuel, "", env, cluster), [gvrs[0]], gvrs);
  }

  /** The rounds of the first listing followed by a sweep of the rest keep the pairing and the addresses. */
  lemma AnsweredJoin(a: seq<Action>, b: seq<Action>, gvrs: seq<Gvr>, cluster: Cluster)
    requires |gvrs| > 0
    requires Answered(a, cluster) && Addresses(a, gvrs)
    requires Answered(b, cluster) && Addresses(b, gvrs[1..])
    ensures Answered(a + b, cluster) && Addresses(a + b, gvrs)
  {
    AddressesWiden(b, gvrs[1..], gvrs);
    AnsweredAppend(a, b, cluster);
    AddressesAppend(a, b, gvrs);
  }

  /** A sweep keeps every delete paired with its event, and addresses only the resource types swept. */
  lemma {:induction false} SweepTraceAnswered(gvrs: seq<Gvr>, list: (Gvr, string, nat) -> Reply, index: nat, fuel: nat, env: Env, cluster: Cluster)
    ensures Answered(SweepTrace(gvrs, list, index, fuel, env, cluster), cluster)
    ensures Addresses(SweepTrace(gvrs, list, index, fuel, env, cluster), gvrs)
    decreases |gvrs|
  {
    if |gvrs| > 0 {
      var first := ListRun(gvrs[0], list, index, fuel, "");
      var a := ListTrace(gvrs[0], list, index, fuel, "", env, cluster);
      ListTraceAnswered(gvrs, list, index, fuel, env, cluster);
      if first.finished {
        var b := SweepTrace(gvrs[1..], list, index + first.requests, fuel - first.requests, env, cluster);
        SweepTraceAnswered(gvrs[1..], list, index + first.requests, fuel - first.requests, env, cluster);
        AnsweredJoin(a, b, gvrs, cluster);
        assert SweepTrace(gvrs, list, index, fuel, env, cluster) == a + b;
      } else {
        assert SweepTrace(gvrs, list, index, fuel, env, cluster) == a + [];
        assert a + [] == a;
      }
    }
  }

  /** A sweep sends as many list requests as the counting reference says. */
  lemma {:induction false} SweptTokensCount(gvrs: seq<Gvr>, list: (Gvr, string, nat) -> Reply, index: nat, fuel: nat)
    ensures |SweptTokens(gvrs, list, index, fuel)| == SweepFrom(gvrs, list, index, fuel).requests
    decreases |gvrs|
  {
    if |gvrs| > 0 {
      var first := ListRun(gvrs[0], list, index, fuel, "");
      var l := ListFrom(gvrs[0], list, index, fuel, "");
      ListRunCounts(gvrs[0], list, index, fuel, "");
      assert first.requests == |l.tokens|;
      if first.finished {
        var index', fuel' := index + first.requests, fuel - first.requests;
        SweptTokensCount(gvrs[1..], list, index', fuel');
        assert SweptTokens(gvrs, list, index, fuel) == l.tokens + SweptTokens(gvrs[1..], list, index', fuel');
        assert SweepFrom(gvrs, list, index, fuel) == PrefixRequests(first.requests, SweepFrom(gvrs[1..], list, index', fuel'));
      } else {
        assert SweptTokens(gvrs, list, index, fuel) == l.tokens + [];
        assert SweepFrom(gvrs, list, index, fuel) == first;
      }
    }
  }

  /** What a whole sweep's trace shows: paired deletes and events, the swept types only, one token per request. */
  lemma SweepTraceShape(gvrs: seq<Gvr>, list: (Gvr, string, nat) -> Reply, fuel: nat, env: Env, cluster: Cluster)
    ensures Answered(SweepTrace(gvrs, list, 0, fuel, env, cluster), cluster)
    ensures Addresses(SweepTrace(gvrs, list, 0, fuel, env, cluster), gvrs)
    ensures |RequestTokens(SweepTrace(gvrs, list, 0, fuel, env, cluster))| == SweepFrom(gvrs, list, 0, fuel).requests
  {
    SweepTraceAnswered(gvrs, list, 0, fuel, env, cluster);
    SweepTraceTokens(gvrs, list, 0, fuel, env, cluster);
    SweptTokensCount(gvrs, list, 0, fuel);
  }

  /** Moving the next listing's rounds from the rest of the sweep to the trace so far keeps the whole. */
  lemma TraceRegroup(trace: seq<Action>, next: seq<Action>, rest: seq<Action>)
    ensures trace + (next + rest) == (trace + next) + rest
  {
  }

  /**
    The trace so far followed by what the sweep does from the `i`-th
    resource type on is what the whole sweep does.
   */
  predicate SweptTrace(gvrs: seq<Gvr>, cluster: Cluster, env: Env, fuel: nat, i: nat, trace: seq<Action>,
                       requests: nat, left: nat)
  {
    && i <= |gvrs|
    && SweepTrace(gvrs, cluster.list, 0, fuel, env, cluster) ==
         trace + SweepTrace(gvrs[i..], cluster.list, requests, left, env, cluster)
  }

  /** One round of the sweep keeps its trace a prefix of the reference sweep's. */
  lemma SweptTraceStep(gvrs: seq<Gvr>, cluster: Cluster, env: Env, fuel: nat, i: nat, trace: seq<Action>,
                       requests: nat, left: nat, trace': seq<Action>, requests': nat, left': nat, done: bool)
    requires SweptTrace(gvrs, cluster, env, fuel, i, trace, requests, left) && i < |gvrs|
    requires trace' == trace + ListTrace(gvrs[i], cluster.list, requests, left, "", env, cluster)
    requires requests' == requests + ListRun(gvrs[i], cluster.list, requests, left, "").requests
    requires left' == left - ListRun(gvrs[i], cluster.list, requests, left, "").requests
    requires done == ListRun(gvrs[i], cluster.list, requests, left, "").finished
    ensures done ==> SweptTrace(gvrs, cluster, env, fuel, i + 1, trace', requests', left')
    ensures !done ==> trace' == SweepTrace(gvrs, cluster.list, 0, fuel, env, cluster)
  {
    var step := ListTrace(gvrs[i], cluster.list, requests, left, "", env, cluster);
    assert gvrs[i..][0] == gvrs[i] && gvrs[i..][1..] == gvrs[i + 1..];
    if done {
      var rest := SweepTrace(gvrs[i + 1..], cluster.list, requests', left', env, cluster);
      assert SweepTrace(gvrs[i..], cluster.list, requests, left, env, cluster) == step + rest;
      TraceRegroup(trace, step, rest);
    } else {
      assert SweepTrace(gvrs[i..], cluster.list, requests, left, env, cluster) == step + [];
      assert step + [] == step;
    }
  }

  /**
    The state of the sweep after the first `i` resource types, `visited`, were
    listed to the end with `requests` list requests, `left` of the fuel
    remaining.
   */
  predicate Swept(gvrs: seq<Gvr>, cluster: Cluster, fuel: nat, i: nat, visited: seq<Gvr>, requests: nat, left: nat)
  {
    && i <= |gvrs|
    && visited == gvrs[..i]
    && requests + left == fuel
    && SweepFrom(gvrs, cluster.list, 0, fuel) == PrefixRequests(requests, SweepFrom(gvrs[i..], cluster.list, requests, left))
  }

  /** A sweep that does not finish `xs` stops inside `xs`, whatever follows it. */
  lemma {:induction false} SweepFromUnfinished(xs: seq<Gvr>, ys: seq<Gvr>, list: (Gvr, string, nat) -> Reply, index: nat, fuel: nat)
    requires !SweepFrom(xs, list, index, fuel).finished
    ensures SweepFrom(xs + ys, list, index, fuel) == SweepFrom(xs, list, index, fuel)
    decreases |xs|
  {
    var first := ListRun(xs[0], list, index, fuel, "");
    if first.finished {
      var count := first.requests;
      SweepFromUnfinished(xs[1..], ys, list, index + count, fuel - count);
      SweepFromAppendHead(xs, ys, list, index, fuel);
    } else {
      var zs := xs + ys;
      assert zs[0] == xs[0];
    }
  }

  /**
    The resource types listed to the end, followed by the next one, are swept
    to the end exactly when the listing of that one ends.
   */
  lemma VisitedStep(gvrs: seq<Gvr>, list: (Gvr, string, nat) -> Reply, fuel: nat, i: nat, visited: seq<Gvr>,
                    requests: nat, left: nat, requests': nat, done: bool)
    requires i < |gvrs| && visited == gvrs[..i]
    requires SweepFrom(visited, list, 0, fuel) == SweepSummary(requests, true) && requests + left == fuel
    requires requests <= requests' && SweepSummary(requests' - requests, done) == ListRun(gvrs[i], list, requests, left, "")
    ensures gvrs[..i + 1] == visited + [gvrs[i]]
    ensures SweepFrom(visited + [gvrs[i]], list, 0, fuel) == SweepSummary(requests', done)
  {
    assert gvrs[..i + 1] == gvrs[..i] + [gvrs[i]];
    SweepFromConcat(visited, [gvrs[i]], list, 0, fuel, requests, requests, left);
    assert [gvrs[i]][0] == gvrs[i] && [gvrs[i]][1..] == [];
  }

  /**
    One round of the sweep: the listing of the next resource type either
    ends, and the sweep goes on, or spends the fuel, and the sweep stops
    unfinished.
   */
  lemma SweptStep(gvrs: seq<Gvr>, cluster: Cluster, fuel: nat, i: nat, visited: seq<Gvr>, requests: nat, left: nat,
                  requests': nat, left': nat, done: bool)
    requires Swept(gvrs, cluster, fuel, i, visited, requests, left) && i < |gvrs|
    requires requests' == requests + ListRun(gvrs[i], cluster.list, requests, left, "").requests
    requires left' == left - ListRun(gvrs[i], cluster.list, requests, left, "").requests
    requires done == ListRun(gvrs[i], cluster.list, requests, left, "").finished
    ensures done ==> Swept(gvrs, cluster, fuel, i + 1, visited + [gvrs[i]], requests', left')
    ensures !done ==> requests' == fuel && SweepFrom(gvrs, cluster.list, 0, fuel) == SweepSummary(requests', false)
  {
    SweepStep(gvrs, cluster.list, fuel, i, requests, left, requests' - requests, done);
    assert gvrs[..i + 1] == gvrs[..i] + [gvrs[i]];
  }

  /**
    One round of the sweep: list the next resource type, `gvrs[i]`, to the
    end or until the fuel runs out, and add its rounds to the trace.
   */
  method SweepNext(gvrs: seq<Gvr>, cluster: Cluster, env: Env, fuel: nat, i: nat, trace: seq<Action>,
                   visited: seq<Gvr>, requests: nat, left: nat)
    returns (trace': seq<Action>, requests': nat, left': nat, done: bool)
    requires Swept(gvrs, cluster, fuel, i, visited, requests, left) && i < |gvrs|
    ensures trace' == trace + ListTrace(gvrs[i], cluster.list, requests, left, "", env, cluster)
    ensures requests' == requests + ListRun(gvrs[i], cluster.list, requests, left, "").requests
    ensures left' == left - ListRun(gvrs[i], cluster.list, requests, left, "").requests
    ensures done == ListRun(gvrs[i], cluster.list, requests, left, "").finished
    ensures done ==> Swept(gvrs, cluster, fuel, i + 1, visited + [gvrs[i]], requests', left')
    ensures !done ==> requests' == fuel && SweepFrom(gvrs, cluster.list, 0, fuel) == SweepSummary(requests', false)
  {
    var actions, tokens, replies;
    actions, tokens, replies, done := ReconcileResource(gvrs[i], cluster, env, requests, left);
    trace', requests', left' := trace + actions, requests + |replies|, left - |replies|;
    SweptStep(gvrs, cluster, fuel, i, visited, requests, left, requests', left', done);
  }

  /**
    List the resource types `gvrs` in order, each to the end. `visited` is
    the longest prefix of `gvrs` listed to the end; `requests` counts the list
    requests made. When the fuel runs out the sweep is unfinished: it stops
    inside the first resource type it could not list to the end.
   */
  method SweepTypes(gvrs: seq<Gvr>, cluster: Cluster, env: Env, fuel: nat)
    returns (trace: seq<Action>, visited: seq<Gvr>, requests: nat, finished: bool)
    ensures SweepOutcome(gvrs, cluster, env, fuel, trace, visited, requests, finished)
  {
    trace, visited, requests, finished := [], [], 0, true;
    var i: nat, left: nat := 0, fuel;
    assert gvrs[0..] == gvrs;
    while i < |gvrs|
      invariant Swept(gvrs, cluster, fuel, i, visited, requests, left)
      invariant SweptTrace(gvrs, cluster, env, fuel, i, trace, requests, left)
      invariant SweepFrom(visited, cluster.list, 0, fuel) == SweepSummary(requests, true)
    {
      var trace', requests', left', done := SweepNext(gvrs, cluster, env, fuel, i, trace, visited, requests, left);
      SweptTraceStep(gvrs, cluster, env, fuel, i, trace, requests, left, trace', requests', left', done);
      VisitedStep(gvrs, cluster.list, fuel, i, visited, requests, left, requests', done);
      if !done {
        trace, requests, finished := trace', requests', false;
        SweepEnded(gvrs, cluster, env, fuel, trace, visited, requests, finished);
        return;
      }
      trace, visited, requests, left, i := trace', visited + [gvrs[i]], requests', left', i + 1;
    }
    assert gvrs[i..] == [];
    assert trace + [] == trace;
    SweepEnded(gvrs, cluster, env, fuel, trace, visited, requests, finished);
  }

  /** A sweep that agrees with the references `SweepTrace` and `SweepFrom` has the outcome `SweepOutcome` describes. */
  lemma SweepEnded(gvrs: seq<Gvr>, cluster: Cluster, env: Env, fuel: nat, trace: seq<Action>,
                   visited: seq<Gvr>, requests: nat, finished: bool)
    requires trace == SweepTrace(gvrs, cluster.list, 0, fuel, env, cluster)
    requires SweepSummary(requests, finished) == SweepFrom(gvrs, cluster.list, 0, fuel)
    requires |visited| <= |gvrs| && visited == gvrs[..|visited|] && SweepFrom(visited, cluster.list, 0, fuel).finished
    requires finished ==> visited == gvrs
    requires !finished ==> requests == fuel && |visited| < |gvrs|
    requires !finished ==> !SweepFrom(gvrs[..|visited| + 1], cluster.list, 0, fuel).finished
    ensures SweepOutcome(gvrs, cluster, env, fuel, trace, visited, requests, finished)
  {
    SweepTraceShape(gvrs, cluster.list, fuel, env, cluster);
  }

  /**
    What a sweep over `gvrs` with at most `fuel` list requests comes to:
    within the fuel, one token per list request; `visited` is a prefix of
    `gvrs` the reference `SweepFrom` lists to the end, and all of `gvrs` when
    the sweep finished; an unfinished sweep spent all its fuel, and
    `SweepFrom` does not finish `visited` followed by the next resource type;
    the totals of `SweepFrom`; and exactly the reference trace `SweepTrace`,
    paired and addressed to `gvrs` only.
   */
  predicate SweepOutcome(gvrs: seq<Gvr>, cluster: Cluster, env: Env, fuel: nat, trace: seq<Action>,
                         visited: seq<Gvr>, requests: nat, finished: bool)
  {
    && requests <= fuel
    && |RequestTokens(trace)| == requests
    && (finished ==> visited == gvrs)
    && (!finished ==> requests == fuel && |visited| < |gvrs| && visited == gvrs[..|visited|])
    && SweepFrom(visited, cluster.list, 0, fuel).finished
    && (!finished ==> !SweepFrom(gvrs[..|visited| + 1], cluster.list, 0, fuel).finished)
    && Answered(trace, cluster)
    && Addresses(trace, gvrs)
    && SweepSummary(requests, finished) == SweepFrom(gvrs, cluster.list, 0, fuel)
    && trace == SweepTrace(gvrs, cluster.list, 0, fuel, env, cluster)
  }

  /** The resource types a sweep visited are the longest prefix of `gvrs` that the reference `SweepFrom` lists to the end. */
  lemma VisitedIsLongest(gvrs: seq<Gvr>, cluster: Cluster, env: Env, fuel: nat, trace: seq<Action>,
                         visited: seq<Gvr>, requests: nat, finished: bool, k: nat)
    requires SweepOutcome(gvrs, cluster, env, fuel, trace, visited, requests, finished)
    requires |visited| < k <= |gvrs|
    ensures !SweepFrom(gvrs[..k], cluster.list, 0, fuel).finished
  {
    var next := gvrs[..|visited| + 1];
    assert gvrs[..k] == next + gvrs[|visited| + 1..k];
    SweepFromUnfinished(next, gvrs[|visited| + 1..k], cluster.list, 0, fuel);
  }

  /**
    One pass over the discovery snapshot: every target it admits, in snapshot
    order. `swept` is the resource types the pass goes over.
   */
  method DoReconcile(snapshot: seq<ApiResourceList>, cluster: Cluster, env: Env, fuel: nat)
    returns (swept: seq<Gvr>, trace: seq<Action>, visited: seq<Gvr>, requests: nat, finished: bool)
    ensures swept == Gvrs(Targets(snapshot))
    ensures SweepOutcome(swept, cluster, env, fuel, trace, visited, requests, finished)
  {
    swept := Gvrs(Targets(snapshot));
    trace, visited, requests, finished := SweepTypes(swept, cluster, env, fuel);
  }
}
