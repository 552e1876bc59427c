/** The message log: what a delta may add, what a step keeps, and the canonical order. */
module Messages {
  import opened Lists
  import opened Records
  import opened Forest
  import opened Secrets
  import opened Actions

  datatype MessageError =
    | TitleTooLong(len: nat)
    | TitleHasNewline
    | WrongSecretVersion(version: nat)
    | IncompleteDistribution
    | PublicInPrivateBoard
    | AuthorNotFound(author: Id)
    | InvalidMessageSignature(id: int)

  predicate TitleOk(cfg: Config, body: Body) {
    var title := body.TitleOf();
    title.Some? ==> |title.value| <= cfg.maxTitleSize && '\n' !in title.value && '\r' !in title.value
  }

  /** What `apply_delta` demands of each message of a delta; no signature is checked here. */
  predicate MessageOk(cfg: Config, r: Roster, secrets: SecretsState, m: AuthorizedMessage) {
    && TitleOk(cfg, m.body)
    && match m.body
       case Private(_, _, version) => (cfg.privateMode ==> version == secrets.currentVersion)
           && HasCompleteDistribution(secrets, r)
       case Public(_, _, _) => !cfg.privateMode
  }

  /** A readable title: of a public text, reply or category. */
  predicate Titled(body: Body, title: string) {
    match body
    case Public(TextType, Text(t), _) => t == title
    case Public(ReplyType, Reply(t), _) => t == title
    case Public(CategoryType, Category(t), _) => t == title
    case _ => false
  }

  /** Why a message spoils its delta: a title over the limit or with a line break; public on a private board; private
      there under another than the current version; private while a listed member lacks a copy of a current version
      above 0. */
  ghost predicate Refused(cfg: Config, r: Roster, secrets: SecretsState, m: AuthorizedMessage) {
    || (exists title :: Titled(m.body, title)
                        && (|title| > cfg.maxTitleSize || '\n' in title || '\r' in title))
    || (m.body.Public? && cfg.privateMode)
    || (m.body.Private? && cfg.privateMode && m.body.secretVersion != secrets.currentVersion)
    || (m.body.Private? && secrets.currentVersion != 0 && exists id :: id in r && Lacks(secrets, id))
  }

  /** Nobody gave id a copy of the current version. */
  ghost predicate Lacks(secrets: SecretsState, id: Id) {
    forall s :: s in secrets.encryptedSecrets ==> s.secretVersion != secrets.currentVersion || s.memberId != id
  }

  lemma RefusedReads(cfg: Config, r: Roster, secrets: SecretsState, m: AuthorizedMessage)
    ensures MessageOk(cfg, r, secrets, m) <==> !Refused(cfg, r, secrets, m)
  {
    TitleReads(cfg, m.body);
    forall id ensures (secrets.currentVersion, id) in Pairs(secrets.encryptedSecrets) <==> !Lacks(secrets, id) {
      if s :| s in secrets.encryptedSecrets && s.secretVersion == secrets.currentVersion && s.memberId == id {
        assert Pair(s) == (secrets.currentVersion, id);
      }
    }
  }

  lemma TitleReads(cfg: Config, body: Body)
    ensures TitleOk(cfg, body)
            <==> forall title :: Titled(body, title) ==>
                                   |title| <= cfg.maxTitleSize && '\n' !in title && '\r' !in title
  {
    if body.TitleOf().Some? {
      assert Titled(body, body.TitleOf().value);
    }
  }

  /** What every message of the log must satisfy: it fits the size limit and its author is the owner or a member. */
  predicate Allowed(cfg: Config, r: Roster, m: AuthorizedMessage) {
    m.body.ContentLen() <= cfg.maxMessageSize && (m.author in r || m.author == cfg.owner)
  }

  function MessageIds(ms: seq<AuthorizedMessage>): set<int> {
    set m | m in ms :: m.id
  }

  function Arriving(delta: Option<seq<AuthorizedMessage>>): seq<AuthorizedMessage> {
    if delta.Some? then delta.value else []
  }

  function Fresh(ms: seq<AuthorizedMessage>, delta: seq<AuthorizedMessage>): seq<AuthorizedMessage> {
    Filter(delta, (m: AuthorizedMessage) => m.id !in MessageIds(ms))
  }

  function Kept(cfg: Config, r: Roster, ms: seq<AuthorizedMessage>): seq<AuthorizedMessage> {
    Sort(Filter(ms, (m: AuthorizedMessage) => Allowed(cfg, r, m)), MessageKey)
  }

  /** The log after `apply_delta`, or None when the delta is rejected. */
  function MessagesApplied(cfg: Config, r: Roster, secrets: SecretsState, ms: seq<AuthorizedMessage>,
                           delta: Option<seq<AuthorizedMessage>>): Option<seq<AuthorizedMessage>>
  {
    if forall m :: m in Arriving(delta) ==> MessageOk(cfg, r, secrets, m)
    then Some(Kept(cfg, r, ms + Fresh(ms, Arriving(delta))))
    else None
  }

  predicate Signed(m: AuthorizedMessage) {
    m.author in m.signature
  }

  /** `MessagesV1::verify`: every author is the owner or listed, and signed the message. */
  ghost predicate MessagesVerify(r: Roster, owner: Id, ms: seq<AuthorizedMessage>) {
    forall m :: m in ms ==> (m.author == owner || m.author in r) && Signed(m)
  }

  class MessagesV1 {
    var messages: seq<AuthorizedMessage>
    var actionsState: ActionsState

    constructor ()
      ensures messages == [] && actionsState == NO_ACTIONS
    {
      messages, actionsState := [], NO_ACTIONS;
    }

    method Verify(members: Roster, owner: Id) returns (res: Result<(), MessageError>)
      ensures res.Ok? <==> MessagesVerify(members, owner, messages)
    {
      for i := 0 to |messages|
        invariant forall j :: 0 <= j < i ==>
                                (messages[j].author == owner || messages[j].author in members) && Signed(messages[j])
      {
        var message := messages[i];
        assert message in messages;
        if message.author != owner && message.author !in members { return Err(AuthorNotFound(message.author)); }
        if !Signed(message) { return Err(InvalidMessageSignature(message.id)); }
      }
      return Ok(());
    }

    static method CheckMessage(cfg: Config, members: Roster, secrets: SecretsState, msg: AuthorizedMessage)
      returns (res: Result<(), MessageError>)
      ensures res.Ok? <==> MessageOk(cfg, members, secrets, msg)
      ensures res.Ok? <==> !Refused(cfg, members, secrets, msg)
    {
      RefusedReads(cfg, members, secrets, msg);
      var title := msg.body.TitleOf();
      if title.Some? {
        if |title.value| > cfg.maxTitleSize { return Err(TitleTooLong(|title.value|)); }
        if '\n' in title.value || '\r' in title.value { return Err(TitleHasNewline); }
      }
      match msg.body {
        case Private(_, _, version) =>
          if cfg.privateMode && version != secrets.currentVersion { return Err(WrongSecretVersion(version)); }
          if !HasCompleteDistribution(secrets, members) { return Err(IncompleteDistribution); }
        case Public(_, _, _) =>
          if cfg.privateMode { return Err(PublicInPrivateBoard); }
      }
      return Ok(());
    }

    /** The messages step; the action state is rebuilt from the new log. A rejected delta changes nothing. */
    method ApplyDelta(cfg: Config, members: Roster, secrets: SecretsState, delta: Option<seq<AuthorizedMessage>>)
      returns (res: Result<(), MessageError>)
      modifies this
      ensures res.Ok? <==> MessagesApplied(cfg, members, secrets, old(messages), delta).Some?
      ensures res.Ok? ==> messages == MessagesApplied(cfg, members, secrets, old(messages), delta).value
      ensures res.Ok? ==> actionsState == Rebuilt(messages)
      ensures res.Err? ==> messages == old(messages) && actionsState == old(actionsState)
    {
      if delta.Some? {
        for i := 0 to |delta.value|
          invariant messages == old(messages) && actionsState == old(actionsState)
          invariant forall j :: 0 <= j < i ==> MessageOk(cfg, members, secrets, delta.value[j])
        {
          res := CheckMessage(cfg, members, secrets, delta.value[i]);
          if res.Err? {
            assert delta.value[i] in Arriving(delta);
            return;
          }
        }
        messages := messages + Fresh(messages, delta.value);
      } else {
        assert messages + Fresh(messages, []) == messages;
      }
      ghost var all := messages;
      messages := Filter(messages, (m: AuthorizedMessage) => m.body.ContentLen() <= cfg.maxMessageSize);
      messages := Filter(messages, (m: AuthorizedMessage) => m.author in members || m.author == cfg.owner);
      TwoFilters(all, cfg, members);
      messages := Sort(messages, MessageKey);
      RebuildActionsState();
      res := Ok(());
    }

    method RebuildActionsState()
      modifies this`actionsState
      ensures actionsState == Rebuilt(messages)
    {
      RebuildActionsStateWithPermissions(map[], None, None);
    }

    /** One readable action by one member. */
    method ApplyAction(actor: Id, action: Action, messageAuthors: map<int, Id>, categoryIds: set<int>,
                       ownerId: Option<Id>, adminIds: Option<set<Id>>, ghost k: Lookup)
      requires k.authors == messageAuthors && k.categories == categoryIds
      requires k.ownerId == ownerId && k.adminIds == adminIds
      modifies this`actionsState
      ensures actionsState == Apply(k, old(actionsState), actor, action)
    {
      var target := action.target;
      match action.kind {
        case Edit(newText) =>
          if target in categoryIds { return; }
          if target in messageAuthors && actor == messageAuthors[target]
             && target !in actionsState.deleted && newText.Some?
          {
            actionsState := actionsState.(editedContent := actionsState.editedContent[target := newText.value]);
          }
        case Delete =>
          if target in messageAuthors && actor == messageAuthors[target] {
            actionsState := actionsState.(deleted := actionsState.deleted + {target});
            actionsState := actionsState.(editedContent := actionsState.editedContent - {target},
                                          editedCategories := actionsState.editedCategories - {target});
          }
        case Reaction(emoji) =>
          if target in messageAuthors && target !in actionsState.deleted && emoji.Some? {
            var reactions := if target in actionsState.reactions then actionsState.reactions[target] else map[];
            var reactors := if emoji.value in reactions then reactions[emoji.value] else [];
            if actor !in reactors { reactors := reactors + [actor]; }
            reactions := reactions[emoji.value := reactors];
            actionsState := actionsState.(reactions := actionsState.reactions[target := reactions]);
          }
        case RemoveReaction(emoji) =>
          if emoji.Some? && target in actionsState.reactions {
            var reactions := actionsState.reactions[target];
            if emoji.value in reactions {
              var reactors := Without(reactions[emoji.value], actor);
              reactions := if reactors == [] then reactions - {emoji.value} else reactions[emoji.value := reactors];
            }
            actionsState := actionsState.(reactions := if reactions == map[] then actionsState.reactions - {target}
                                                       else actionsState.reactions[target := reactions]);
          }
        case EditCategory(edit) =>
          if target !in categoryIds { return; }
          var isOwner := ownerId.Some? && actor == ownerId.value;
          var isAdmin := adminIds.Some? && actor in adminIds.value;
          var isAuthor := target in messageAuthors && messageAuthors[target] == actor;
          if (isOwner || isAdmin || isAuthor) && target !in actionsState.deleted && edit.Some? {
            actionsState := actionsState.(editedCategories := actionsState.editedCategories[target := edit.value]);
          }
        case UnknownAction(_) =>
      }
    }

    /** Scans the log in order, applying each readable action. */
    method RebuildActionsStateWithPermissions(decrypted: map<int, Option<Action>>, ownerId: Option<Id>,
                                              adminIds: Option<set<Id>>)
      modifies this`actionsState
      ensures actionsState == Scan(LookupFor(messages, decrypted, ownerId, adminIds), messages, |messages|)
      ensures Reflects(actionsState, messages, decrypted, ownerId, adminIds)
    {
      actionsState := NO_ACTIONS;
      var messageAuthors := AuthorsOf(messages);
      var categoryIds := CategoriesOf(messages);
      ghost var k := LookupFor(messages, decrypted, ownerId, adminIds);
      for i := 0 to |messages|
        invariant actionsState == Scan(k, messages, i)
      {
        var msg := messages[i];
        var actor := msg.author;
        if !msg.body.IsAction() { continue; }
        var action: Action;
        match msg.body {
          case Public(_, data, _) =>
            if !data.Act? { continue; }
            action := data.action;
          case Private(_, _, _) =>
            if msg.id !in decrypted || decrypted[msg.id].None? { continue; }
            action := decrypted[msg.id].value;
        }
        ApplyAction(actor, action, messageAuthors, categoryIds, ownerId, adminIds, k);
      }
      RebuiltMeaning(messages, decrypted, ownerId, adminIds);
    }
  }

  lemma {:induction false} TwoFilters(ms: seq<AuthorizedMessage>, cfg: Config, r: Roster)
    ensures Filter(Filter(ms, (m: AuthorizedMessage) => m.body.ContentLen() <= cfg.maxMessageSize),
                   (m: AuthorizedMessage) => m.author in r || m.author == cfg.owner)
            == Filter(ms, (m: AuthorizedMessage) => Allowed(cfg, r, m))
  {
    if ms != [] {
      TwoFilters(ms[1..], cfg, r);
    }
  }

  // ---------- The log as a set ----------

  ghost predicate DistinctMessages(ms: seq<AuthorizedMessage>) {
    forall i, j :: 0 <= i < j < |ms| ==> ms[i].id != ms[j].id
  }

  /** Messages with the same identifier, a hash of their signature, are the same message. */
  ghost predicate Agree(ms: seq<AuthorizedMessage>, ns: seq<AuthorizedMessage>) {
    forall m, n :: m in ms && n in ns && m.id == n.id ==> m == n
  }

  function IdKey(m: AuthorizedMessage): Key { (m.id, 0) }

  lemma IdsAreKeys(ms: seq<AuthorizedMessage>)
    ensures DistinctMessages(ms) <==> DistinctKeys(ms, IdKey)
    ensures DistinctMessages(ms) ==> DistinctKeys(ms, MessageKey)
  {
    forall i, j | 0 <= i < j < |ms| ensures ms[i].id == ms[j].id <==> IdKey(ms[i]) == IdKey(ms[j]) {
    }
  }

  lemma AddFreshDistinct(ms: seq<AuthorizedMessage>, d: seq<AuthorizedMessage>)
    requires DistinctMessages(ms) && DistinctMessages(d)
    ensures DistinctMessages(ms + Fresh(ms, d))
  {
    IdsAreKeys(ms);
    IdsAreKeys(d);
    FilterKeepsOrder(d, (m: AuthorizedMessage) => m.id !in MessageIds(ms), IdKey);
    DistinctConcat(ms, Fresh(ms, d), IdKey);
    IdsAreKeys(ms + Fresh(ms, d));
  }

  /** The kept log is the strictly sorted list of the allowed messages. */
  lemma KeptIsCanonical(cfg: Config, r: Roster, ms: seq<AuthorizedMessage>)
    ensures forall m :: m in Kept(cfg, r, ms) <==> m in ms && Allowed(cfg, r, m)
    ensures Sorted(Kept(cfg, r, ms), MessageKey)
    ensures DistinctMessages(ms) ==> StrictlySorted(Kept(cfg, r, ms), MessageKey) && DistinctMessages(Kept(cfg, r, ms))
  {
    var allowed := (m: AuthorizedMessage) => Allowed(cfg, r, m);
    var f := Filter(ms, allowed);
    SortSorts(f, MessageKey);
    if DistinctMessages(ms) {
      IdsAreKeys(ms);
      FilterKeepsOrder(ms, allowed, IdKey);
      IdsAreKeys(f);
      SortDistinct(f, MessageKey);
      SortKeepsDistinct(f, MessageKey, IdKey);
      IdsAreKeys(Kept(cfg, r, ms));
    }
  }

  /** log is the strictly sorted list of the allowed messages among ms. */
  ghost predicate IsLogOf(cfg: Config, r: Roster, log: seq<AuthorizedMessage>, ms: seq<AuthorizedMessage>) {
    && StrictlySorted(log, MessageKey) && DistinctMessages(log)
    && forall m :: m in log <==> m in ms && Allowed(cfg, r, m)
  }

  lemma LogUnique(cfg: Config, r: Roster, log: seq<AuthorizedMessage>, log': seq<AuthorizedMessage>,
                  ms: seq<AuthorizedMessage>, ms': seq<AuthorizedMessage>)
    requires IsLogOf(cfg, r, log, ms) && IsLogOf(cfg, r, log', ms')
    requires forall m :: m in ms <==> m in ms'
    ensures log == log'
  {
    SortedListUnique(log, log', MessageKey);
  }

  /** After one accepted delta: the allowed messages of the log and the delta. */
  lemma AppliedElements(cfg: Config, r: Roster, secrets: SecretsState, ms: seq<AuthorizedMessage>,
                        d: seq<AuthorizedMessage>)
    requires DistinctMessages(ms) && DistinctMessages(d) && Agree(ms, d)
    requires MessagesApplied(cfg, r, secrets, ms, Some(d)).Some?
    ensures IsLogOf(cfg, r, MessagesApplied(cfg, r, secrets, ms, Some(d)).value, ms + d)
  {
    AddFreshDistinct(ms, d);
    KeptIsCanonical(cfg, r, ms + Fresh(ms, d));
    forall m | m in d && m !in ms ensures m in Fresh(ms, d) {
    }
  }

  lemma AppliedTwice(cfg: Config, r: Roster, secrets: SecretsState, ms: seq<AuthorizedMessage>,
                     d: seq<AuthorizedMessage>, e: seq<AuthorizedMessage>)
    returns (after: seq<AuthorizedMessage>)
    requires DistinctMessages(ms) && DistinctMessages(d) && DistinctMessages(e)
    requires Agree(ms, d) && Agree(ms, e) && Agree(d, e)
    requires forall m :: m in d || m in e ==> MessageOk(cfg, r, secrets, m)
    ensures MessagesApplied(cfg, r, secrets, ms, Some(d)).Some?
    ensures MessagesApplied(cfg, r, secrets, MessagesApplied(cfg, r, secrets, ms, Some(d)).value, Some(e))
            == Some(after)
    ensures IsLogOf(cfg, r, after, ms + d + e)
  {
    var md := MessagesApplied(cfg, r, secrets, ms, Some(d)).value;
    AppliedElements(cfg, r, secrets, ms, d);
    AppliedElements(cfg, r, secrets, md, e);
    after := MessagesApplied(cfg, r, secrets, md, Some(e)).value;
  }

  /** The log is a set join: two deltas give the same log in either order, as one delta, or repeated. */
  lemma MessagesJoin(cfg: Config, r: Roster, secrets: SecretsState, ms: seq<AuthorizedMessage>,
                     d: seq<AuthorizedMessage>, e: seq<AuthorizedMessage>) returns (log: seq<AuthorizedMessage>)
    requires DistinctMessages(ms) && DistinctMessages(d) && DistinctMessages(e)
    requires Agree(ms, d) && Agree(ms, e) && Agree(d, e)
    requires forall m :: m in d || m in e ==> MessageOk(cfg, r, secrets, m)
    ensures IsLogOf(cfg, r, log, ms + d + e)
    ensures MessagesApplied(cfg, r, secrets, ms, Some(d)).Some? && MessagesApplied(cfg, r, secrets, ms, Some(e)).Some?
    ensures MessagesApplied(cfg, r, secrets, MessagesApplied(cfg, r, secrets, ms, Some(d)).value, Some(e)) == Some(log)
    ensures MessagesApplied(cfg, r, secrets, MessagesApplied(cfg, r, secrets, ms, Some(e)).value, Some(d)) == Some(log)
    ensures MessagesApplied(cfg, r, secrets, ms, Some(d + Fresh(d, e))) == Some(log)
    ensures MessagesApplied(cfg, r, secrets, log, Some(d)) == Some(log)
  {
    log := AppliedTwice(cfg, r, secrets, ms, d, e);
    OtherOrder(cfg, r, secrets, ms, d, e, log);
    AsOneDelta(cfg, r, secrets, ms, d, e, log);
    JoinedAgrees(ms, d, e);
    Reapplied(cfg, r, secrets, log, d, ms + d + e);
  }

  lemma JoinedAgrees(ms: seq<AuthorizedMessage>, d: seq<AuthorizedMessage>, e: seq<AuthorizedMessage>)
    requires DistinctMessages(d) && Agree(ms, d) && Agree(d, e)
    ensures Agree(ms + d + e, d) && forall m :: m in d ==> m in ms + d + e
  {
    forall m, n | m in ms + d + e && n in d && m.id == n.id ensures m == n {
      assert m in ms || m in d || m in e;
    }
  }

  lemma OtherOrder(cfg: Config, r: Roster, secrets: SecretsState, ms: seq<AuthorizedMessage>,
                   d: seq<AuthorizedMessage>, e: seq<AuthorizedMessage>, log: seq<AuthorizedMessage>)
    requires DistinctMessages(ms) && DistinctMessages(d) && DistinctMessages(e)
    requires Agree(ms, d) && Agree(ms, e) && Agree(d, e)
    requires forall m :: m in d || m in e ==> MessageOk(cfg, r, secrets, m)
    requires IsLogOf(cfg, r, log, ms + d + e)
    ensures MessagesApplied(cfg, r, secrets, ms, Some(e)).Some?
    ensures MessagesApplied(cfg, r, secrets, MessagesApplied(cfg, r, secrets, ms, Some(e)).value, Some(d)) == Some(log)
  {
    AgreeSwap(d, e);
    var other := AppliedTwice(cfg, r, secrets, ms, e, d);
    LogUnique(cfg, r, log, other, ms + d + e, ms + e + d);
  }

  lemma AgreeSwap(ms: seq<AuthorizedMessage>, ns: seq<AuthorizedMessage>)
    requires Agree(ms, ns)
    ensures Agree(ns, ms)
  {
  }

  lemma AsOneDelta(cfg: Config, r: Roster, secrets: SecretsState, ms: seq<AuthorizedMessage>,
                   d: seq<AuthorizedMessage>, e: seq<AuthorizedMessage>, log: seq<AuthorizedMessage>)
    requires DistinctMessages(ms) && DistinctMessages(d) && DistinctMessages(e)
    requires Agree(ms, d) && Agree(ms, e) && Agree(d, e)
    requires forall m :: m in d || m in e ==> MessageOk(cfg, r, secrets, m)
    requires IsLogOf(cfg, r, log, ms + d + e)
    ensures MessagesApplied(cfg, r, secrets, ms, Some(d + Fresh(d, e))) == Some(log)
  {
    var both := d + Fresh(d, e);
    AddFreshDistinct(d, e);
    FreshJoins(d, e);
    AppliedElements(cfg, r, secrets, ms, both);
    LogUnique(cfg, r, log, MessagesApplied(cfg, r, secrets, ms, Some(both)).value, ms + d + e, ms + both);
  }

  lemma FreshJoins(d: seq<AuthorizedMessage>, e: seq<AuthorizedMessage>)
    requires Agree(d, e)
    ensures forall m :: m in d + Fresh(d, e) <==> m in d || m in e
  {
  }

  lemma Reapplied(cfg: Config, r: Roster, secrets: SecretsState, log: seq<AuthorizedMessage>, d: seq<AuthorizedMessage>,
                  ms: seq<AuthorizedMessage>)
    requires IsLogOf(cfg, r, log, ms) && DistinctMessages(d) && Agree(ms, d)
    requires forall m :: m in d ==> m in ms && MessageOk(cfg, r, secrets, m)
    ensures MessagesApplied(cfg, r, secrets, log, Some(d)) == Some(log)
  {
    AppliedElements(cfg, r, secrets, log, d);
    SortedListUnique(log, MessagesApplied(cfg, r, secrets, log, Some(d)).value, MessageKey);
  }
}
