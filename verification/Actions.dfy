/** Edits, deletions and reactions: the state rebuilt by scanning the message log, and what it means. */
module Actions {
  import opened Lists
  import opened Records

  type Reactions = map<string, seq<Id>>

  datatype ActionsState = ActionsState(
    editedContent: map<int, string>,
    editedCategories: map<int, CategoryEdit>,
    deleted: set<int>,
    reactions: map<int, Reactions>)

  const NO_ACTIONS := ActionsState(map[], map[], {}, map[])

  // What the scan looks up: authors of non-action messages, which messages are categories, the decrypted actions of
  // private messages (None when the bytes do not decode), and who may edit categories besides their author.
  datatype Lookup = Lookup(
    authors: map<int, Id>,
    categories: set<int>,
    decrypted: map<int, Option<Action>>,
    ownerId: Option<Id>,
    adminIds: Option<set<Id>>)

  function AuthorsOf(log: seq<AuthorizedMessage>): map<int, Id> {
    if log == [] then map[]
    else
      var n := |log| - 1;
      if log[n].body.IsAction() then AuthorsOf(log[..n]) else AuthorsOf(log[..n])[log[n].id := log[n].author]
  }

  function CategoriesOf(log: seq<AuthorizedMessage>): set<int> {
    set m | m in log && m.body.IsCategory() :: m.id
  }

  /** The action a message carries, if it is an action message whose content is readable. */
  function ActionOf(k: Lookup, m: AuthorizedMessage): Option<Action> {
    match m.body
    case Public(ActionType, Act(action), _) => Some(action)
    case Private(ActionType, _, _) => if m.id in k.decrypted then k.decrypted[m.id] else None
    case _ => None
  }

  predicate ByAuthor(k: Lookup, actor: Id, target: int) {
    target in k.authors && k.authors[target] == actor
  }

  predicate MayEditCategory(k: Lookup, actor: Id, target: int) {
    || k.ownerId == Some(actor)
    || (k.adminIds.Some? && actor in k.adminIds.value)
    || ByAuthor(k, actor, target)
  }

  function ReactorsOf(s: ActionsState, target: int, emoji: string): seq<Id> {
    if target in s.reactions && emoji in s.reactions[target] then s.reactions[target][emoji] else []
  }

  function AddReaction(s: ActionsState, target: int, emoji: string, actor: Id): ActionsState {
    var reactors := ReactorsOf(s, target, emoji);
    var entry := if target in s.reactions then s.reactions[target] else map[];
    s.(reactions := s.reactions[target := entry[emoji := if actor in reactors then reactors else reactors + [actor]]])
  }

  function Without(reactors: seq<Id>, actor: Id): seq<Id> {
    Filter(reactors, (x: Id) => x != actor)
  }

  /** One message's reactions once a member's is gone; an emoji left with no reactors goes too. */
  function LeftOf(entry: Reactions, emoji: string, actor: Id): Reactions {
    if emoji !in entry then entry
    else if Without(entry[emoji], actor) == [] then entry - {emoji}
    else entry[emoji := Without(entry[emoji], actor)]
  }

  function DropReaction(s: ActionsState, target: int, emoji: string, actor: Id): ActionsState {
    if target !in s.reactions then s
    else
      var left := LeftOf(s.reactions[target], emoji, actor);
      s.(reactions := if left == map[] then s.reactions - {target} else s.reactions[target := left])
  }

  /** The effect of one action by one member. */
  function Apply(k: Lookup, s: ActionsState, actor: Id, a: Action): ActionsState {
    var t := a.target;
    match a.kind
    case Edit(text) =>
      if t !in k.categories && ByAuthor(k, actor, t) && t !in s.deleted && text.Some?
      then s.(editedContent := s.editedContent[t := text.value]) else s
    case Delete =>
      if ByAuthor(k, actor, t)
      then s.(deleted := s.deleted + {t}, editedContent := s.editedContent - {t},
              editedCategories := s.editedCategories - {t})
      else s
    case Reaction(emoji) =>
      if t in k.authors && t !in s.deleted && emoji.Some? then AddReaction(s, t, emoji.value, actor) else s
    case RemoveReaction(emoji) =>
      if emoji.Some? then DropReaction(s, t, emoji.value, actor) else s
    case EditCategory(edit) =>
      if t in k.categories && MayEditCategory(k, actor, t) && t !in s.deleted && edit.Some?
      then s.(editedCategories := s.editedCategories[t := edit.value]) else s
    case UnknownAction(_) => s
  }

  /** The state after scanning the first n messages. */
  function Scan(k: Lookup, log: seq<AuthorizedMessage>, n: nat): ActionsState
    requires n <= |log|
  {
    if n == 0 then NO_ACTIONS
    else
      var s := Scan(k, log, n - 1);
      var a := ActionOf(k, log[n - 1]);
      if a.Some? then Apply(k, s, log[n - 1].author, a.value) else s
  }

  function LookupFor(log: seq<AuthorizedMessage>, decrypted: map<int, Option<Action>>, ownerId: Option<Id>,
                     adminIds: Option<set<Id>>): Lookup
  {
    Lookup(AuthorsOf(log), CategoriesOf(log), decrypted, ownerId, adminIds)
  }

  /** The state a step rebuilds: no decrypted content and no extra permissions. */
  function Rebuilt(log: seq<AuthorizedMessage>): ActionsState {
    Scan(LookupFor(log, map[], None, None), log, |log|)
  }

  // ---------- What the scan means ----------

  /** Message i of the log is this action by this member. */
  ghost predicate Acts(k: Lookup, log: seq<AuthorizedMessage>, i: nat, actor: Id, kind: ActionKind, target: int) {
    i < |log| && log[i].author == actor && ActionOf(k, log[i]) == Some(Action(kind, target))
  }

  /** The author deletes the message at position i. */
  ghost predicate DeletesAt(k: Lookup, log: seq<AuthorizedMessage>, i: nat, target: int) {
    i < |log| && ByAuthor(k, log[i].author, target) && Acts(k, log, i, log[i].author, Delete, target)
  }

  ghost predicate DeletedBefore(k: Lookup, log: seq<AuthorizedMessage>, n: nat, target: int) {
    exists i: nat :: i < n && DeletesAt(k, log, i, target)
  }

  /** The author of a non-category message gives it a new text at position i. */
  ghost predicate EditsAt(k: Lookup, log: seq<AuthorizedMessage>, i: nat, target: int, text: string) {
    i < |log| && target !in k.categories && ByAuthor(k, log[i].author, target) &&
    Acts(k, log, i, log[i].author, Edit(Some(text)), target)
  }

  ghost predicate SomeEditAt(k: Lookup, log: seq<AuthorizedMessage>, i: nat, target: int) {
    exists text :: EditsAt(k, log, i, target, text)
  }

  ghost predicate CategoryEditAt(k: Lookup, log: seq<AuthorizedMessage>, i: nat, target: int, edit: CategoryEdit) {
    i < |log| && target in k.categories && MayEditCategory(k, log[i].author, target) &&
    Acts(k, log, i, log[i].author, EditCategory(Some(edit)), target)
  }

  ghost predicate SomeCategoryEditAt(k: Lookup, log: seq<AuthorizedMessage>, i: nat, target: int) {
    exists edit :: CategoryEditAt(k, log, i, target, edit)
  }

  /** The text of the last author edit among the first n messages. */
  ghost predicate LastEdit(k: Lookup, log: seq<AuthorizedMessage>, n: nat, target: int, text: string) {
    exists i: nat :: i < n && EditsAt(k, log, i, target, text) &&
                     forall j: nat :: i < j < n ==> !SomeEditAt(k, log, j, target)
  }

  ghost predicate LastCategoryEdit(k: Lookup, log: seq<AuthorizedMessage>, n: nat, target: int, edit: CategoryEdit) {
    exists i: nat :: i < n && CategoryEditAt(k, log, i, target, edit) &&
                     forall j: nat :: i < j < n ==> !SomeCategoryEditAt(k, log, j, target)
  }

  /** A member reacts, before any deletion of the target, at position i. */
  ghost predicate ReactsAt(k: Lookup, log: seq<AuthorizedMessage>, i: nat, target: int, emoji: string, actor: Id) {
    target in k.authors && Acts(k, log, i, actor, Reaction(Some(emoji)), target) && !DeletedBefore(k, log, i, target)
  }

  ghost predicate UnreactsAt(k: Lookup, log: seq<AuthorizedMessage>, i: nat, target: int, emoji: string, actor: Id) {
    Acts(k, log, i, actor, RemoveReaction(Some(emoji)), target)
  }

  /** Some reaction of the member is followed by no removal of it. */
  ghost predicate StandingReaction(k: Lookup, log: seq<AuthorizedMessage>, n: nat, target: int, emoji: string,
                                   actor: Id)
  {
    exists i: nat :: i < n && ReactsAt(k, log, i, target, emoji, actor) &&
                     forall j: nat :: i < j < n ==> !UnreactsAt(k, log, j, target, emoji, actor)
  }

  lemma {:induction false} ScannedDeletions(k: Lookup, log: seq<AuthorizedMessage>, n: nat, target: int)
    requires n <= |log|
    ensures target in Scan(k, log, n).deleted <==> DeletedBefore(k, log, n, target)
  {
    if n > 0 {
      ScannedDeletions(k, log, n - 1, target);
      assert DeletedBefore(k, log, n, target)
             <==> DeletedBefore(k, log, n - 1, target) || DeletesAt(k, log, n - 1, target);
    }
  }

  lemma {:induction false} ScannedEdits(k: Lookup, log: seq<AuthorizedMessage>, n: nat, target: int, text: string)
    requires n <= |log|
    ensures target in Scan(k, log, n).editedContent && Scan(k, log, n).editedContent[target] == text
            <==> LastEdit(k, log, n, target, text) && !DeletedBefore(k, log, n, target)
  {
    if n > 0 {
      ScannedEdits(k, log, n - 1, target, text);
      ScannedDeletions(k, log, n - 1, target);
      assert DeletedBefore(k, log, n, target)
             <==> DeletedBefore(k, log, n - 1, target) || DeletesAt(k, log, n - 1, target);
      LastEditStep(k, log, n, target, text);
      var a := ActionOf(k, log[n - 1]);
      if a.Some? && a.value.kind.Edit? && a.value.kind.newText.Some? && a.value.target == target
         && target !in k.categories && ByAuthor(k, log[n - 1].author, target) {
        assert EditsAt(k, log, n - 1, target, a.value.kind.newText.value);
      }
    }
  }

  lemma LastEditStep(k: Lookup, log: seq<AuthorizedMessage>, n: nat, target: int, text: string)
    requires 0 < n <= |log|
    ensures LastEdit(k, log, n, target, text) <==>
              EditsAt(k, log, n - 1, target, text)
              || (LastEdit(k, log, n - 1, target, text) && !SomeEditAt(k, log, n - 1, target))
  {
    if LastEdit(k, log, n, target, text) {
      var i: nat :| i < n && EditsAt(k, log, i, target, text) &&
                    forall j: nat :: i < j < n ==> !SomeEditAt(k, log, j, target);
    }
    if LastEdit(k, log, n - 1, target, text) && !SomeEditAt(k, log, n - 1, target) {
      var i: nat :| i < n - 1 && EditsAt(k, log, i, target, text) &&
                    forall j: nat :: i < j < n - 1 ==> !SomeEditAt(k, log, j, target);
      assert forall j: nat :: i < j < n ==> !SomeEditAt(k, log, j, target);
    }
  }

  lemma {:induction false} ScannedCategoryEdits(k: Lookup, log: seq<AuthorizedMessage>, n: nat, target: int,
                                                 edit: CategoryEdit)
    requires n <= |log|
    ensures target in Scan(k, log, n).editedCategories && Scan(k, log, n).editedCategories[target] == edit
            <==> LastCategoryEdit(k, log, n, target, edit) && !DeletedBefore(k, log, n, target)
  {
    if n > 0 {
      ScannedCategoryEdits(k, log, n - 1, target, edit);
      ScannedDeletions(k, log, n - 1, target);
      assert DeletedBefore(k, log, n, target)
             <==> DeletedBefore(k, log, n - 1, target) || DeletesAt(k, log, n - 1, target);
      LastCategoryEditStep(k, log, n, target, edit);
      var a := ActionOf(k, log[n - 1]);
      if a.Some? && a.value.kind.EditCategory? && a.value.kind.edit.Some? && a.value.target == target
         && target in k.categories && MayEditCategory(k, log[n - 1].author, target) {
        assert CategoryEditAt(k, log, n - 1, target, a.value.kind.edit.value);
      }
    }
  }

  lemma LastCategoryEditStep(k: Lookup, log: seq<AuthorizedMessage>, n: nat, target: int, edit: CategoryEdit)
    requires 0 < n <= |log|
    ensures LastCategoryEdit(k, log, n, target, edit) <==>
              CategoryEditAt(k, log, n - 1, target, edit)
              || (LastCategoryEdit(k, log, n - 1, target, edit) && !SomeCategoryEditAt(k, log, n - 1, target))
  {
    if LastCategoryEdit(k, log, n, target, edit) {
      var i: nat :| i < n && CategoryEditAt(k, log, i, target, edit) &&
                    forall j: nat :: i < j < n ==> !SomeCategoryEditAt(k, log, j, target);
    }
    if LastCategoryEdit(k, log, n - 1, target, edit) && !SomeCategoryEditAt(k, log, n - 1, target) {
      var i: nat :| i < n - 1 && CategoryEditAt(k, log, i, target, edit) &&
                    forall j: nat :: i < j < n - 1 ==> !SomeCategoryEditAt(k, log, j, target);
      assert forall j: nat :: i < j < n ==> !SomeCategoryEditAt(k, log, j, target);
    }
  }

  /** No message keeps an empty reaction table, no emoji an empty or repeating reactor list. */
  ghost predicate TidyReactions(s: ActionsState) {
    forall t :: t in s.reactions ==>
                  s.reactions[t] != map[] &&
                  forall e :: e in s.reactions[t] ==> s.reactions[t][e] != [] && Distinct(s.reactions[t][e])
  }

  lemma WithoutTidy(s: seq<Id>, actor: Id)
    requires Distinct(s)
    ensures Distinct(Without(s, actor))
  {
    var key := (x: Id) => (x, 0);
    assert DistinctKeys(s, key);
    FilterKeepsOrder(s, (x: Id) => x != actor, key);
    assert DistinctKeys(Without(s, actor), key);
    var w := Without(s, actor);
    forall i, j | 0 <= i < j < |w| ensures w[i] != w[j] {
      assert key(w[i]) != key(w[j]);
    }
  }

  lemma DropReactionMeaning(s: ActionsState, target: int, emoji: string, actor: Id, t: int, e: string)
    ensures ReactorsOf(DropReaction(s, target, emoji, actor), t, e)
            == if (t, e) == (target, emoji) then Without(ReactorsOf(s, t, e), actor) else ReactorsOf(s, t, e)
  {
    if target in s.reactions && t == target {
      var entry := s.reactions[target];
      var left := LeftOf(entry, emoji, actor);
      assert e in left <==> e in entry && (e != emoji || Without(entry[emoji], actor) != []);
      assert e in left && e != emoji ==> left[e] == entry[e];
      assert left == map[] ==> e !in left;
    }
  }

  lemma DropReactionTidy(s: ActionsState, target: int, emoji: string, actor: Id)
    requires TidyReactions(s)
    ensures TidyReactions(DropReaction(s, target, emoji, actor))
  {
    if target in s.reactions {
      var entry := s.reactions[target];
      var left := LeftOf(entry, emoji, actor);
      if emoji in entry {
        WithoutTidy(entry[emoji], actor);
      }
      forall e | e in left ensures left[e] != [] && Distinct(left[e]) {
        assert e in entry;
      }
    }
  }

  lemma AddReactionMeaning(s: ActionsState, target: int, emoji: string, actor: Id)
    requires TidyReactions(s)
    ensures TidyReactions(AddReaction(s, target, emoji, actor))
  {
    var reactors := ReactorsOf(s, target, emoji);
    assert Distinct(if actor in reactors then reactors else reactors + [actor]);
    var r := AddReaction(s, target, emoji, actor).reactions;
    assert emoji in r[target];
  }

  lemma {:induction false} ScannedReactions(k: Lookup, log: seq<AuthorizedMessage>, n: nat, target: int,
                                            emoji: string, actor: Id)
    requires n <= |log|
    ensures actor in ReactorsOf(Scan(k, log, n), target, emoji) <==> StandingReaction(k, log, n, target, emoji, actor)
    ensures TidyReactions(Scan(k, log, n))
  {
    if n > 0 {
      ScannedReactions(k, log, n - 1, target, emoji, actor);
      ScannedDeletions(k, log, n - 1, target);
      StandingStep(k, log, n, target, emoji, actor);
      var a := ActionOf(k, log[n - 1]);
      if a.Some? {
        ReactorsStep(k, Scan(k, log, n - 1), log[n - 1].author, a.value, target, emoji, actor);
      }
    }
  }

  /** What one action does to the reactors of one message with one emoji. */
  lemma ReactorsStep(k: Lookup, s: ActionsState, who: Id, a: Action, target: int, emoji: string, actor: Id)
    requires TidyReactions(s)
    ensures TidyReactions(Apply(k, s, who, a))
    ensures actor in ReactorsOf(Apply(k, s, who, a), target, emoji)
            <==> if who != actor || a.target != target then actor in ReactorsOf(s, target, emoji)
                 else if a.kind == Reaction(Some(emoji)) && target in k.authors && target !in s.deleted then true
                 else if a.kind == RemoveReaction(Some(emoji)) then false
                 else actor in ReactorsOf(s, target, emoji)
  {
    match a.kind
    case Reaction(e) =>
      if e.Some? { AddReactionMeaning(s, a.target, e.value, who); }
    case RemoveReaction(e) =>
      if e.Some? {
        DropReactionMeaning(s, a.target, e.value, who, target, emoji);
        DropReactionTidy(s, a.target, e.value, who);
      }
    case _ =>
  }

  lemma StandingStep(k: Lookup, log: seq<AuthorizedMessage>, n: nat, target: int, emoji: string, actor: Id)
    requires 0 < n <= |log|
    ensures StandingReaction(k, log, n, target, emoji, actor) <==>
              ReactsAt(k, log, n - 1, target, emoji, actor)
              || (StandingReaction(k, log, n - 1, target, emoji, actor)
                  && !UnreactsAt(k, log, n - 1, target, emoji, actor))
  {
    if StandingReaction(k, log, n, target, emoji, actor) {
      var i: nat :| i < n && ReactsAt(k, log, i, target, emoji, actor) &&
                    forall j: nat :: i < j < n ==> !UnreactsAt(k, log, j, target, emoji, actor);
    }
    if StandingReaction(k, log, n - 1, target, emoji, actor) && !UnreactsAt(k, log, n - 1, target, emoji, actor) {
      var i: nat :| i < n - 1 && ReactsAt(k, log, i, target, emoji, actor) &&
                    forall j: nat :: i < j < n - 1 ==> !UnreactsAt(k, log, j, target, emoji, actor);
      assert forall j: nat :: i < j < n ==> !UnreactsAt(k, log, j, target, emoji, actor);
    }
  }

  // ---------- Who wrote what ----------

  /** Position i is the last message with this identifier that is no action. */
  ghost predicate LastPost(log: seq<AuthorizedMessage>, i: nat, id: int) {
    && i < |log| && !log[i].body.contentType.ActionType? && log[i].id == id
    && forall j :: i < j < |log| && log[j].id == id ==> log[j].body.contentType.ActionType?
  }

  /** The author of an identifier is the author of the last message, no action, that carries it. */
  lemma {:induction false} AuthorsMeaning(log: seq<AuthorizedMessage>, id: int, a: Id)
    ensures id in AuthorsOf(log) && AuthorsOf(log)[id] == a
            <==> exists i: nat :: LastPost(log, i, id) && log[i].author == a
  {
    if log != [] {
      var n := |log| - 1;
      AuthorsMeaning(log[..n], id, a);
      if log[n].id == id && !log[n].body.IsAction() {
        assert LastPost(log, n, id);
        forall i: nat | LastPost(log, i, id) ensures i == n {
        }
      } else {
        forall i: nat ensures LastPost(log, i, id) <==> LastPost(log[..n], i, id) {
          assert i < n ==> log[..n][i] == log[i];
          assert forall j :: 0 <= j < n ==> log[..n][j] == log[j];
        }
      }
    }
  }

  /** On a log without repeated identifiers these are exactly the messages that are no actions, with their authors. */
  lemma AuthorsOfDistinct(log: seq<AuthorizedMessage>, id: int, a: Id)
    requires forall i, j :: 0 <= i < j < |log| ==> log[i].id != log[j].id
    ensures id in AuthorsOf(log) && AuthorsOf(log)[id] == a
            <==> exists m :: m in log && !m.body.contentType.ActionType? && m.id == id && m.author == a
  {
    AuthorsMeaning(log, id, a);
    if m :| m in log && !m.body.IsAction() && m.id == id && m.author == a {
      var i :| 0 <= i < |log| && log[i] == m;
      assert LastPost(log, i, id);
    }
    if i: nat :| LastPost(log, i, id) && log[i].author == a {
      assert log[i] in log;
    }
  }

  // ---------- What the log says ----------

  type Decrypted = map<int, Option<Action>>

  /** Message i is this action: in public, or in private and decrypted. */
  ghost predicate Carries(log: seq<AuthorizedMessage>, dec: Decrypted, i: nat, kind: ActionKind, target: int) {
    i < |log| &&
    match log[i].body
    case Public(ActionType, Act(a), _) => a == Action(kind, target)
    case Private(ActionType, _, _) => log[i].id in dec && dec[log[i].id] == Some(Action(kind, target))
    case _ => false
  }

  /** a wrote the last message, no action, with this identifier. */
  ghost predicate Wrote(log: seq<AuthorizedMessage>, a: Id, id: int) {
    exists i: nat :: LastPost(log, i, id) && log[i].author == a
  }

  ghost predicate Posted(log: seq<AuthorizedMessage>, id: int) {
    exists i: nat :: LastPost(log, i, id)
  }

  ghost predicate IsCategory(log: seq<AuthorizedMessage>, id: int) {
    exists m :: m in log && m.body.contentType.CategoryType? && m.id == id
  }

  /** The target's author deletes it at position i. */
  ghost predicate Deletes(log: seq<AuthorizedMessage>, dec: Decrypted, i: nat, target: int) {
    Carries(log, dec, i, Delete, target) && Wrote(log, log[i].author, target)
  }

  ghost predicate GoneBefore(log: seq<AuthorizedMessage>, dec: Decrypted, n: nat, target: int) {
    exists i: nat :: i < n && Deletes(log, dec, i, target)
  }

  /** The target's author gives it, no category, a readable text at position i. */
  ghost predicate Rewrites(log: seq<AuthorizedMessage>, dec: Decrypted, i: nat, target: int, text: string) {
    Carries(log, dec, i, Edit(Some(text)), target) && Wrote(log, log[i].author, target) && !IsCategory(log, target)
  }

  ghost predicate RewritesSomehow(log: seq<AuthorizedMessage>, dec: Decrypted, i: nat, target: int) {
    exists text :: Rewrites(log, dec, i, target, text)
  }

  ghost predicate LastRewrite(log: seq<AuthorizedMessage>, dec: Decrypted, n: nat, target: int, text: string) {
    exists i: nat :: i < n && Rewrites(log, dec, i, target, text) &&
                     forall j: nat :: i < j < n ==> !RewritesSomehow(log, dec, j, target)
  }

  /** The owner, an admin or the target's author gives it, a category, a readable edit at position i. */
  ghost predicate Renames(log: seq<AuthorizedMessage>, dec: Decrypted, ownerId: Option<Id>, adminIds: Option<set<Id>>,
                          i: nat, target: int, edit: CategoryEdit)
  {
    && Carries(log, dec, i, EditCategory(Some(edit)), target) && IsCategory(log, target)
    && (ownerId == Some(log[i].author) || (adminIds.Some? && log[i].author in adminIds.value)
        || Wrote(log, log[i].author, target))
  }

  ghost predicate RenamesSomehow(log: seq<AuthorizedMessage>, dec: Decrypted, ownerId: Option<Id>,
                                 adminIds: Option<set<Id>>, i: nat, target: int)
  {
    exists edit :: Renames(log, dec, ownerId, adminIds, i, target, edit)
  }

  ghost predicate LastRename(log: seq<AuthorizedMessage>, dec: Decrypted, ownerId: Option<Id>,
                             adminIds: Option<set<Id>>, n: nat, target: int, edit: CategoryEdit)
  {
    exists i: nat :: i < n && Renames(log, dec, ownerId, adminIds, i, target, edit) &&
                     forall j: nat :: i < j < n ==> !RenamesSomehow(log, dec, ownerId, adminIds, j, target)
  }

  /** actor reacts to a message that was posted, before any deletion of it, at position i. */
  ghost predicate Reacts(log: seq<AuthorizedMessage>, dec: Decrypted, i: nat, target: int, emoji: string, actor: Id) {
    && Carries(log, dec, i, Reaction(Some(emoji)), target) && log[i].author == actor
    && Posted(log, target) && !GoneBefore(log, dec, i, target)
  }

  ghost predicate TakesBack(log: seq<AuthorizedMessage>, dec: Decrypted, i: nat, target: int, emoji: string,
                            actor: Id)
  {
    Carries(log, dec, i, RemoveReaction(Some(emoji)), target) && log[i].author == actor
  }

  /** The reaction of position i stands after n messages. */
  ghost predicate StandsFrom(log: seq<AuthorizedMessage>, dec: Decrypted, n: nat, target: int, emoji: string,
                             actor: Id, i: nat)
  {
    i < n && Reacts(log, dec, i, target, emoji, actor) &&
    forall j: nat :: i < j < n ==> !TakesBack(log, dec, j, target, emoji, actor)
  }

  ghost predicate Reacted(log: seq<AuthorizedMessage>, dec: Decrypted, n: nat, target: int, emoji: string,
                          actor: Id)
  {
    exists i: nat :: StandsFrom(log, dec, n, target, emoji, actor, i)
  }

  /** Position i is the first from which a reaction of the actor stands. */
  ghost predicate StandsSince(log: seq<AuthorizedMessage>, dec: Decrypted, n: nat, target: int, emoji: string,
                              actor: Id, i: nat)
  {
    StandsFrom(log, dec, n, target, emoji, actor, i) &&
    forall j: nat :: j < i ==> !StandsFrom(log, dec, n, target, emoji, actor, j)
  }

  /** The reaction of a has stood longer than that of b. */
  ghost predicate Earlier(log: seq<AuthorizedMessage>, dec: Decrypted, n: nat, target: int, emoji: string, a: Id, b: Id)
  {
    forall i: nat, j: nat ::
      StandsSince(log, dec, n, target, emoji, a, i) && StandsSince(log, dec, n, target, emoji, b, j) ==> i < j
  }

  /** Reactors in the order in which their reactions have stood. */
  ghost predicate InReactionOrder(log: seq<AuthorizedMessage>, dec: Decrypted, n: nat, target: int, emoji: string,
                                  reactors: seq<Id>)
  {
    forall p, q :: 0 <= p < q < |reactors| ==> Earlier(log, dec, n, target, emoji, reactors[p], reactors[q])
  }

  // ---------- The scan finds what the log says ----------

  lemma CarriesReads(k: Lookup, log: seq<AuthorizedMessage>, i: nat, kind: ActionKind, target: int)
    requires i < |log|
    ensures ActionOf(k, log[i]) == Some(Action(kind, target)) <==> Carries(log, k.decrypted, i, kind, target)
  {
  }

  lemma AuthorReads(log: seq<AuthorizedMessage>, id: int)
    ensures forall a :: id in AuthorsOf(log) && AuthorsOf(log)[id] == a <==> Wrote(log, a, id)
    ensures id in AuthorsOf(log) <==> Posted(log, id)
  {
    forall a ensures id in AuthorsOf(log) && AuthorsOf(log)[id] == a <==> Wrote(log, a, id) {
      AuthorsMeaning(log, id, a);
    }
    if i: nat :| LastPost(log, i, id) {
      assert Wrote(log, log[i].author, id);
    }
    if id in AuthorsOf(log) {
      assert Wrote(log, AuthorsOf(log)[id], id);
    }
  }

  /** Each event of the scan is the event of the log. */
  lemma EventsRead(log: seq<AuthorizedMessage>, dec: Decrypted, ownerId: Option<Id>, adminIds: Option<set<Id>>, i: nat,
                   target: int)
    ensures var k := LookupFor(log, dec, ownerId, adminIds);
            && (DeletesAt(k, log, i, target) <==> Deletes(log, dec, i, target))
            && (forall text :: EditsAt(k, log, i, target, text) <==> Rewrites(log, dec, i, target, text))
            && (forall edit :: CategoryEditAt(k, log, i, target, edit)
                               <==> Renames(log, dec, ownerId, adminIds, i, target, edit))
            && (forall e, a :: UnreactsAt(k, log, i, target, e, a) <==> TakesBack(log, dec, i, target, e, a))
  {
    var k := LookupFor(log, dec, ownerId, adminIds);
    AuthorReads(log, target);
    assert target in k.categories <==> IsCategory(log, target);
    if i < |log| {
      forall kind ensures ActionOf(k, log[i]) == Some(Action(kind, target)) <==> Carries(log, dec, i, kind, target) {
        CarriesReads(k, log, i, kind, target);
      }
    }
  }

  lemma GoneReads(log: seq<AuthorizedMessage>, dec: Decrypted, ownerId: Option<Id>, adminIds: Option<set<Id>>, n: nat,
                  target: int)
    ensures DeletedBefore(LookupFor(log, dec, ownerId, adminIds), log, n, target) <==> GoneBefore(log, dec, n, target)
  {
    forall i: nat ensures DeletesAt(LookupFor(log, dec, ownerId, adminIds), log, i, target)
                          <==> Deletes(log, dec, i, target) {
      EventsRead(log, dec, ownerId, adminIds, i, target);
    }
  }

  lemma ReactionReads(log: seq<AuthorizedMessage>, dec: Decrypted, ownerId: Option<Id>, adminIds: Option<set<Id>>,
                      i: nat, target: int, emoji: string, actor: Id)
    ensures ReactsAt(LookupFor(log, dec, ownerId, adminIds), log, i, target, emoji, actor)
            <==> Reacts(log, dec, i, target, emoji, actor)
  {
    AuthorReads(log, target);
    GoneReads(log, dec, ownerId, adminIds, i, target);
    if i < |log| {
      CarriesReads(LookupFor(log, dec, ownerId, adminIds), log, i, Reaction(Some(emoji)), target);
    }
  }

  /** A message is deleted after n messages exactly when its author has deleted it among them. */
  lemma DeletedMeaning(log: seq<AuthorizedMessage>, dec: Decrypted, ownerId: Option<Id>, adminIds: Option<set<Id>>,
                       n: nat, target: int)
    requires n <= |log|
    ensures target in Scan(LookupFor(log, dec, ownerId, adminIds), log, n).deleted <==> GoneBefore(log, dec, n, target)
  {
    ScannedDeletions(LookupFor(log, dec, ownerId, adminIds), log, n, target);
    GoneReads(log, dec, ownerId, adminIds, n, target);
  }

  /** The edited text is that of the last edit by the author of what is not deleted and no category. */
  lemma EditedMeaning(log: seq<AuthorizedMessage>, dec: Decrypted, ownerId: Option<Id>, adminIds: Option<set<Id>>,
                      n: nat, target: int, text: string)
    requires n <= |log|
    ensures var st := Scan(LookupFor(log, dec, ownerId, adminIds), log, n);
            target in st.editedContent && st.editedContent[target] == text
            <==> LastRewrite(log, dec, n, target, text) && !GoneBefore(log, dec, n, target)
  {
    var k := LookupFor(log, dec, ownerId, adminIds);
    ScannedEdits(k, log, n, target, text);
    GoneReads(log, dec, ownerId, adminIds, n, target);
    forall i: nat ensures SomeEditAt(k, log, i, target) <==> RewritesSomehow(log, dec, i, target)
      ensures EditsAt(k, log, i, target, text) <==> Rewrites(log, dec, i, target, text)
    {
      EventsRead(log, dec, ownerId, adminIds, i, target);
    }
    LastEditReads(k, log, dec, n, target, text);
  }

  lemma LastEditReads(k: Lookup, log: seq<AuthorizedMessage>, dec: Decrypted, n: nat, target: int, text: string)
    requires forall i: nat :: EditsAt(k, log, i, target, text) <==> Rewrites(log, dec, i, target, text)
    requires forall i: nat :: SomeEditAt(k, log, i, target) <==> RewritesSomehow(log, dec, i, target)
    ensures LastEdit(k, log, n, target, text) <==> LastRewrite(log, dec, n, target, text)
  {
  }

  /** The edited category is the last edit by the owner, an admin or the author of what is a category and not
      deleted. */
  lemma CategoryEditedMeaning(log: seq<AuthorizedMessage>, dec: Decrypted, ownerId: Option<Id>,
                              adminIds: Option<set<Id>>, n: nat, target: int, edit: CategoryEdit)
    requires n <= |log|
    ensures var st := Scan(LookupFor(log, dec, ownerId, adminIds), log, n);
            target in st.editedCategories && st.editedCategories[target] == edit
            <==> LastRename(log, dec, ownerId, adminIds, n, target, edit) && !GoneBefore(log, dec, n, target)
  {
    var k := LookupFor(log, dec, ownerId, adminIds);
    ScannedCategoryEdits(k, log, n, target, edit);
    GoneReads(log, dec, ownerId, adminIds, n, target);
    forall i: nat ensures SomeCategoryEditAt(k, log, i, target)
                          <==> RenamesSomehow(log, dec, ownerId, adminIds, i, target)
      ensures CategoryEditAt(k, log, i, target, edit) <==> Renames(log, dec, ownerId, adminIds, i, target, edit)
    {
      EventsRead(log, dec, ownerId, adminIds, i, target);
    }
    LastCategoryEditReads(log, dec, ownerId, adminIds, n, target, edit);
  }

  lemma LastCategoryEditReads(log: seq<AuthorizedMessage>, dec: Decrypted, ownerId: Option<Id>,
                              adminIds: Option<set<Id>>, n: nat, target: int, edit: CategoryEdit)
    requires var k := LookupFor(log, dec, ownerId, adminIds);
             && (forall i: nat :: CategoryEditAt(k, log, i, target, edit)
                                  <==> Renames(log, dec, ownerId, adminIds, i, target, edit))
             && forall i: nat :: SomeCategoryEditAt(k, log, i, target)
                                 <==> RenamesSomehow(log, dec, ownerId, adminIds, i, target)
    ensures LastCategoryEdit(LookupFor(log, dec, ownerId, adminIds), log, n, target, edit)
            <==> LastRename(log, dec, ownerId, adminIds, n, target, edit)
  {
  }

  lemma ReactedReads(log: seq<AuthorizedMessage>, dec: Decrypted, ownerId: Option<Id>, adminIds: Option<set<Id>>,
                     n: nat, target: int, emoji: string, actor: Id)
    ensures StandingReaction(LookupFor(log, dec, ownerId, adminIds), log, n, target, emoji, actor)
            <==> Reacted(log, dec, n, target, emoji, actor)
  {
    var k := LookupFor(log, dec, ownerId, adminIds);
    forall i: nat ensures ReactsAt(k, log, i, target, emoji, actor) <==> Reacts(log, dec, i, target, emoji, actor)
      ensures UnreactsAt(k, log, i, target, emoji, actor) <==> TakesBack(log, dec, i, target, emoji, actor)
    {
      ReactionReads(log, dec, ownerId, adminIds, i, target, emoji, actor);
      EventsRead(log, dec, ownerId, adminIds, i, target);
    }
    StandingReads(k, log, dec, n, target, emoji, actor);
  }

  lemma StandingReads(k: Lookup, log: seq<AuthorizedMessage>, dec: Decrypted, n: nat, target: int, emoji: string,
                      actor: Id)
    requires forall i: nat :: ReactsAt(k, log, i, target, emoji, actor) <==> Reacts(log, dec, i, target, emoji, actor)
    requires forall i: nat ::
               UnreactsAt(k, log, i, target, emoji, actor) <==> TakesBack(log, dec, i, target, emoji, actor)
    ensures StandingReaction(k, log, n, target, emoji, actor) <==> Reacted(log, dec, n, target, emoji, actor)
  {
    if i: nat :| StandsFrom(log, dec, n, target, emoji, actor, i) {
      assert ReactsAt(k, log, i, target, emoji, actor);
    }
    if StandingReaction(k, log, n, target, emoji, actor) {
      var i: nat :| i < n && ReactsAt(k, log, i, target, emoji, actor) &&
                    forall j: nat :: i < j < n ==> !UnreactsAt(k, log, j, target, emoji, actor);
      assert StandsFrom(log, dec, n, target, emoji, actor, i);
    }
  }

  lemma ReactorsRead(log: seq<AuthorizedMessage>, dec: Decrypted, ownerId: Option<Id>, adminIds: Option<set<Id>>,
                     n: nat, target: int, emoji: string)
    requires n <= |log|
    ensures forall a :: a in ReactorsOf(Scan(LookupFor(log, dec, ownerId, adminIds), log, n), target, emoji)
                        <==> Reacted(log, dec, n, target, emoji, a)
  {
    var k := LookupFor(log, dec, ownerId, adminIds);
    forall a ensures a in ReactorsOf(Scan(k, log, n), target, emoji) <==> Reacted(log, dec, n, target, emoji, a) {
      ScannedReactions(k, log, n, target, emoji, a);
      ReactedReads(log, dec, ownerId, adminIds, n, target, emoji, a);
    }
  }

  /** A member is a reactor exactly when a reaction stands; reactors are in the order in which theirs have stood. */
  lemma ReactionsMeaning(log: seq<AuthorizedMessage>, dec: Decrypted, ownerId: Option<Id>, adminIds: Option<set<Id>>,
                         n: nat, target: int, emoji: string)
    requires n <= |log|
    ensures var reactors := ReactorsOf(Scan(LookupFor(log, dec, ownerId, adminIds), log, n), target, emoji);
            && (forall a :: a in reactors <==> Reacted(log, dec, n, target, emoji, a))
            && InReactionOrder(log, dec, n, target, emoji, reactors)
    ensures TidyReactions(Scan(LookupFor(log, dec, ownerId, adminIds), log, n))
  {
    var k := LookupFor(log, dec, ownerId, adminIds);
    ScannedReactions(k, log, n, target, emoji, 0);
    ReactorsRead(log, dec, ownerId, adminIds, n, target, emoji);
    ScannedOrder(log, dec, ownerId, adminIds, n, target, emoji);
  }

  /** One message more: what stood still does unless it takes it back; it may stand itself. */
  lemma StandsOneMore(log: seq<AuthorizedMessage>, dec: Decrypted, n: nat, target: int, emoji: string, actor: Id,
                      i: nat)
    requires 0 < n <= |log|
    ensures StandsFrom(log, dec, n, target, emoji, actor, i)
            <==> if i == n - 1 then Reacts(log, dec, i, target, emoji, actor)
                 else StandsFrom(log, dec, n - 1, target, emoji, actor, i)
                      && !TakesBack(log, dec, n - 1, target, emoji, actor)
  {
  }

  /** Who has a reaction standing has it since before the message that adds nothing of theirs. */
  lemma SinceOneMore(log: seq<AuthorizedMessage>, dec: Decrypted, n: nat, target: int, emoji: string, actor: Id, i: nat)
    requires 0 < n <= |log| && StandsSince(log, dec, n, target, emoji, actor, i)
    requires !Reacts(log, dec, n - 1, target, emoji, actor)
             || (Reacted(log, dec, n - 1, target, emoji, actor) && !TakesBack(log, dec, n - 1, target, emoji, actor))
    ensures StandsSince(log, dec, n - 1, target, emoji, actor, i)
  {
    forall j: nat ensures StandsFrom(log, dec, n, target, emoji, actor, j)
                          <==> if j == n - 1 then Reacts(log, dec, j, target, emoji, actor)
                               else StandsFrom(log, dec, n - 1, target, emoji, actor, j)
                                    && !TakesBack(log, dec, n - 1, target, emoji, actor) {
      StandsOneMore(log, dec, n, target, emoji, actor, j);
    }
  }

  /** The reactors after one more message: as they were, without one, or with one more behind. */
  lemma ReactorsOneMore(k: Lookup, log: seq<AuthorizedMessage>, n: nat, target: int, emoji: string)
    requires 0 < n <= |log|
    ensures var before, who := ReactorsOf(Scan(k, log, n - 1), target, emoji), log[n - 1].author;
            var after := ReactorsOf(Scan(k, log, n), target, emoji);
            after == before || after == Without(before, who) || (who !in before && after == before + [who])
  {
    var s, a := Scan(k, log, n - 1), ActionOf(k, log[n - 1]);
    if a.Some? && a.value.kind.RemoveReaction? && a.value.kind.emoji.Some? {
      DropReactionMeaning(s, a.value.target, a.value.kind.emoji.value, log[n - 1].author, target, emoji);
    }
  }

  lemma {:induction false} ScannedOrder(log: seq<AuthorizedMessage>, dec: Decrypted, ownerId: Option<Id>,
                                        adminIds: Option<set<Id>>, n: nat, target: int, emoji: string)
    requires n <= |log|
    ensures InReactionOrder(log, dec, n, target, emoji,
                            ReactorsOf(Scan(LookupFor(log, dec, ownerId, adminIds), log, n), target, emoji))
  {
    var k := LookupFor(log, dec, ownerId, adminIds);
    if n > 0 {
      var before, after := ReactorsOf(Scan(k, log, n - 1), target, emoji), ReactorsOf(Scan(k, log, n), target, emoji);
      ScannedOrder(log, dec, ownerId, adminIds, n - 1, target, emoji);
      ReactorsOneMore(k, log, n, target, emoji);
      ReactorsRead(log, dec, ownerId, adminIds, n - 1, target, emoji);
      ReactorsRead(log, dec, ownerId, adminIds, n, target, emoji);
      OrderOneMore(log, dec, n, target, emoji, before, after);
    }
  }

  lemma OrderOneMore(log: seq<AuthorizedMessage>, dec: Decrypted, n: nat, target: int, emoji: string,
                     before: seq<Id>, after: seq<Id>)
    requires 0 < n <= |log| && InReactionOrder(log, dec, n - 1, target, emoji, before)
    requires forall a :: a in before <==> Reacted(log, dec, n - 1, target, emoji, a)
    requires forall a :: a in after <==> Reacted(log, dec, n, target, emoji, a)
    requires var who := log[n - 1].author;
             after == before || after == Without(before, who) || (who !in before && after == before + [who])
    ensures InReactionOrder(log, dec, n, target, emoji, after)
  {
    var who := log[n - 1].author;
    if who !in before && after == before + [who] {
      OrderWithLast(log, dec, n, target, emoji, before, who);
    } else {
      var earlier := (a: Id, b: Id) => Earlier(log, dec, n - 1, target, emoji, a, b);
      assert Pairwise(before, earlier);
      FilterKeepsPairwise(before, (x: Id) => x != who, earlier);
      forall p, q | 0 <= p < q < |after| ensures Earlier(log, dec, n, target, emoji, after[p], after[q]) {
        assert after[p] in after && after[q] in after && earlier(after[p], after[q]);
        StillEarlier(log, dec, n, target, emoji, after[p], after[q]);
      }
    }
  }

  lemma StillEarlier(log: seq<AuthorizedMessage>, dec: Decrypted, n: nat, target: int, emoji: string, a: Id, b: Id)
    requires 0 < n <= |log| && Earlier(log, dec, n - 1, target, emoji, a, b)
    requires Reacted(log, dec, n - 1, target, emoji, a) && Reacted(log, dec, n - 1, target, emoji, b)
    ensures Earlier(log, dec, n, target, emoji, a, b)
  {
    forall i: nat, j: nat |
      StandsSince(log, dec, n, target, emoji, a, i) && StandsSince(log, dec, n, target, emoji, b, j)
      ensures i < j
    {
      StoodBefore(log, dec, n, target, emoji, a, i);
      StoodBefore(log, dec, n, target, emoji, b, j);
    }
  }

  /** Who is a reactor before and after the message has been one since the same position. */
  lemma StoodBefore(log: seq<AuthorizedMessage>, dec: Decrypted, n: nat, target: int, emoji: string, a: Id, i: nat)
    requires 0 < n <= |log| && StandsSince(log, dec, n, target, emoji, a, i)
    requires Reacted(log, dec, n - 1, target, emoji, a)
    ensures StandsSince(log, dec, n - 1, target, emoji, a, i)
  {
    if TakesBack(log, dec, n - 1, target, emoji, a) {
      assert !Reacts(log, dec, n - 1, target, emoji, a);
    }
    SinceOneMore(log, dec, n, target, emoji, a, i);
  }

  lemma OrderWithLast(log: seq<AuthorizedMessage>, dec: Decrypted, n: nat, target: int, emoji: string,
                      before: seq<Id>, who: Id)
    requires 0 < n <= |log| && InReactionOrder(log, dec, n - 1, target, emoji, before) && who !in before
    requires forall a :: a in before <==> Reacted(log, dec, n - 1, target, emoji, a)
    requires forall a :: a in before + [who] <==> Reacted(log, dec, n, target, emoji, a)
    ensures InReactionOrder(log, dec, n, target, emoji, before + [who])
  {
    var after := before + [who];
    forall p, q | 0 <= p < q < |after| ensures Earlier(log, dec, n, target, emoji, after[p], after[q]) {
      assert after[p] == before[p] && before[p] in before;
      if q < |before| {
        assert after[q] == before[q] && before[q] in before;
        StillEarlier(log, dec, n, target, emoji, after[p], after[q]);
      } else {
        EarlierThanNew(log, dec, n, target, emoji, after[p], who);
      }
    }
  }

  lemma EarlierThanNew(log: seq<AuthorizedMessage>, dec: Decrypted, n: nat, target: int, emoji: string, a: Id, who: Id)
    requires 0 < n <= |log|
    requires Reacted(log, dec, n - 1, target, emoji, a) && !Reacted(log, dec, n - 1, target, emoji, who)
    ensures Earlier(log, dec, n, target, emoji, a, who)
  {
    forall i: nat, j: nat |
      StandsSince(log, dec, n, target, emoji, a, i) && StandsSince(log, dec, n, target, emoji, who, j)
      ensures i < j
    {
      StoodBefore(log, dec, n, target, emoji, a, i);
      NewlyStands(log, dec, n, target, emoji, who, j);
    }
  }

  lemma NewlyStands(log: seq<AuthorizedMessage>, dec: Decrypted, n: nat, target: int, emoji: string, a: Id, j: nat)
    requires 0 < n <= |log| && StandsFrom(log, dec, n, target, emoji, a, j)
    requires !Reacted(log, dec, n - 1, target, emoji, a)
    ensures j == n - 1
  {
    StandsOneMore(log, dec, n, target, emoji, a, j);
  }

  /** The state says exactly what the log does: deletions, texts, categories, reactions and their order. */
  ghost predicate Reflects(st: ActionsState, log: seq<AuthorizedMessage>, dec: Decrypted, ownerId: Option<Id>,
                           adminIds: Option<set<Id>>)
  {
    var n := |log|;
    && (forall t :: t in st.deleted <==> GoneBefore(log, dec, n, t))
    && (forall t, text :: LastRewrite(log, dec, n, t, text) && !GoneBefore(log, dec, n, t)
                          <==> t in st.editedContent && st.editedContent[t] == text)
    && (forall t, edit :: LastRename(log, dec, ownerId, adminIds, n, t, edit) && !GoneBefore(log, dec, n, t)
                          <==> t in st.editedCategories && st.editedCategories[t] == edit)
    && (forall t, e, a :: a in ReactorsOf(st, t, e) <==> Reacted(log, dec, n, t, e, a))
    && (forall t, e :: InReactionOrder(log, dec, n, t, e, ReactorsOf(st, t, e)))
    && TidyReactions(st)
  }

  /** What the scan rebuilds, read off the log alone. */
  lemma RebuiltMeaning(log: seq<AuthorizedMessage>, dec: Decrypted, ownerId: Option<Id>, adminIds: Option<set<Id>>)
    ensures Reflects(Scan(LookupFor(log, dec, ownerId, adminIds), log, |log|), log, dec, ownerId, adminIds)
  {
    var n := |log|;
    var st := Scan(LookupFor(log, dec, ownerId, adminIds), log, n);
    forall t ensures t in st.deleted <==> GoneBefore(log, dec, n, t) {
      DeletedMeaning(log, dec, ownerId, adminIds, n, t);
    }
    forall t, text ensures LastRewrite(log, dec, n, t, text) && !GoneBefore(log, dec, n, t)
                           <==> t in st.editedContent && st.editedContent[t] == text {
      EditedMeaning(log, dec, ownerId, adminIds, n, t, text);
    }
    forall t, edit ensures LastRename(log, dec, ownerId, adminIds, n, t, edit) && !GoneBefore(log, dec, n, t)
                           <==> t in st.editedCategories && st.editedCategories[t] == edit {
      CategoryEditedMeaning(log, dec, ownerId, adminIds, n, t, edit);
    }
    forall t, e ensures InReactionOrder(log, dec, n, t, e, ReactorsOf(st, t, e))
      ensures forall a :: a in ReactorsOf(st, t, e) <==> Reacted(log, dec, n, t, e, a)
    {
      ReactionsMeaning(log, dec, ownerId, adminIds, n, t, e);
    }
    ReactionsMeaning(log, dec, ownerId, adminIds, n, 0, "");
  }

  /** On a private board an edit is found in the decrypted content. */
  lemma PrivateEditHere()
    ensures var log := [AuthorizedMessage(1, 5, 1, Private(TextType, [], 1), {5}),
                        AuthorizedMessage(2, 5, 2, Private(ActionType, [], 1), {5})];
            var st := Scan(LookupFor(log, map[2 := Some(Action(Edit(Some("x")), 1))], None, None), log, 2);
            1 in st.editedContent && st.editedContent[1] == "x"
  {
    var log := [AuthorizedMessage(1, 5, 1, Private(TextType, [], 1), {5}),
                AuthorizedMessage(2, 5, 2, Private(ActionType, [], 1), {5})];
    var dec := map[2 := Some(Action(Edit(Some("x")), 1))];
    assert LastPost(log, 0, 1);
    assert Wrote(log, 5, 1);
    assert Rewrites(log, dec, 1, 1, "x");
    assert !Carries(log, dec, 0, Delete, 1) && !Carries(log, dec, 1, Delete, 1);
    EditedMeaning(log, dec, None, None, 2, 1, "x");
  }

  // ---------- Messages that stand in the log more than once ----------

  /** The log with each stretch of equal messages cut down to one. */
  function Once(log: seq<AuthorizedMessage>): (r: seq<AuthorizedMessage>)
    ensures forall m :: m in r <==> m in log
    ensures log != [] ==> r != [] && r[|r| - 1] == log[|log| - 1]
  {
    if |log| <= 1 then log
    else
      var n := |log| - 1;
      assert log == log[..n] + [log[n]];
      if log[n] == log[n - 1] then Once(log[..n]) else Once(log[..n]) + [log[n]]
  }

  /** Doing an action again at once changes nothing. */
  lemma ApplyAgain(k: Lookup, s: ActionsState, actor: Id, a: Action)
    ensures Apply(k, Apply(k, s, actor, a), actor, a) == Apply(k, s, actor, a)
  {
    var t := a.target;
    match a.kind
    case Reaction(emoji) =>
      if t in k.authors && t !in s.deleted && emoji.Some? {
        AddAgain(s, t, emoji.value, actor);
      }
    case RemoveReaction(emoji) =>
      if emoji.Some? {
        DropAgain(s, t, emoji.value, actor);
      }
    case _ =>
  }

  lemma AddAgain(s: ActionsState, target: int, emoji: string, actor: Id)
    ensures AddReaction(AddReaction(s, target, emoji, actor), target, emoji, actor)
            == AddReaction(s, target, emoji, actor)
  {
    var once := AddReaction(s, target, emoji, actor);
    assert actor in ReactorsOf(once, target, emoji);
    assert once.reactions[target][emoji := once.reactions[target][emoji]] == once.reactions[target];
    assert once.reactions[target := once.reactions[target]] == once.reactions;
  }

  lemma DropAgain(s: ActionsState, target: int, emoji: string, actor: Id)
    ensures DropReaction(DropReaction(s, target, emoji, actor), target, emoji, actor)
            == DropReaction(s, target, emoji, actor)
  {
    var once := DropReaction(s, target, emoji, actor);
    if target in once.reactions {
      var left := once.reactions[target];
      LeftAgain(s.reactions[target], emoji, actor);
      assert once.reactions[target := left] == once.reactions;
    }
  }

  lemma LeftAgain(entry: Reactions, emoji: string, actor: Id)
    ensures LeftOf(LeftOf(entry, emoji, actor), emoji, actor) == LeftOf(entry, emoji, actor)
  {
    var left := LeftOf(entry, emoji, actor);
    if emoji in left {
      FilterAll(left[emoji], (x: Id) => x != actor);
      assert left[emoji := left[emoji]] == left;
    }
  }

  lemma {:induction false} ScanOfPrefix(k: Lookup, log: seq<AuthorizedMessage>, i: nat, n: nat)
    requires n <= i <= |log|
    ensures Scan(k, log[..i], n) == Scan(k, log, n)
    decreases n
  {
    if n > 0 {
      ScanOfPrefix(k, log, i, n - 1);
    }
  }

  lemma ScanLast(k: Lookup, log: seq<AuthorizedMessage>)
    requires log != []
    ensures var n := |log| - 1;
            var a, s := ActionOf(k, log[n]), Scan(k, log[..n], n);
            Scan(k, log, |log|) == if a.Some? then Apply(k, s, log[n].author, a.value) else s
  {
    ScanOfPrefix(k, log, |log| - 1, |log| - 1);
  }

  lemma {:induction false} ScanOnce(k: Lookup, log: seq<AuthorizedMessage>)
    ensures Scan(k, Once(log), |Once(log)|) == Scan(k, log, |log|)
  {
    if |log| > 1 {
      var n := |log| - 1;
      ScanOnce(k, log[..n]);
      if log[n] == log[n - 1] {
        ScanRepeat(k, log);
      } else {
        SplitLast(log);
        ScanNext(k, Once(log[..n]), log[..n], log[n]);
      }
    }
  }

  lemma ScanRepeat(k: Lookup, log: seq<AuthorizedMessage>)
    requires |log| > 1 && log[|log| - 1] == log[|log| - 2]
    ensures var n := |log| - 1; Scan(k, log, |log|) == Scan(k, log[..n], n)
  {
    var n := |log| - 1;
    ScanLast(k, log);
    ScanLast(k, log[..n]);
    var a := ActionOf(k, log[n]);
    if a.Some? {
      ApplyAgain(k, Scan(k, log[..n][..n - 1], n - 1), log[n].author, a.value);
    }
  }

  lemma ScanNext(k: Lookup, once: seq<AuthorizedMessage>, log: seq<AuthorizedMessage>, m: AuthorizedMessage)
    requires Scan(k, once, |once|) == Scan(k, log, |log|)
    ensures Scan(k, once + [m], |once| + 1) == Scan(k, log + [m], |log| + 1)
  {
    ScanLast(k, once + [m]);
    ScanLast(k, log + [m]);
    assert (once + [m])[..|once|] == once && (log + [m])[..|log|] == log;
  }

  lemma {:induction false} AuthorsOnce(log: seq<AuthorizedMessage>)
    ensures AuthorsOf(Once(log)) == AuthorsOf(log)
  {
    if |log| > 1 {
      var n := |log| - 1;
      AuthorsOnce(log[..n]);
      if log[n] == log[n - 1] {
        assert AuthorsOf(log[..n])[log[n].id := log[n].author] == AuthorsOf(log[..n]) || log[n].body.IsAction();
      } else {
        assert Once(log)[..|Once(log)| - 1] == Once(log[..n]);
      }
    }
  }

  lemma RebuiltOnce(log: seq<AuthorizedMessage>)
    ensures Rebuilt(Once(log)) == Rebuilt(log)
  {
    AuthorsOnce(log);
    assert CategoriesOf(Once(log)) == CategoriesOf(log);
    ScanOnce(LookupFor(log, map[], None, None), log);
  }

  /** In a sorted log whose identifiers are unambiguous equal messages stand together. */
  lemma {:induction false} OnceIsStrict(log: seq<AuthorizedMessage>)
    requires Sorted(log, MessageKey) && forall m, n :: m in log && n in log && m.id == n.id ==> m == n
    ensures StrictlySorted(Once(log), MessageKey)
  {
    if |log| > 1 {
      var n := |log| - 1;
      assert log == log[..n] + [log[n]];
      OnceIsStrict(log[..n]);
      if log[n] != log[n - 1] {
        assert log[n - 1] in log && log[n] in log;
        assert AtMost(MessageKey(log[n - 1]), MessageKey(log[n]));
        StrictlyBehind(Once(log[..n]), log[n]);
      }
    }
  }

  lemma StrictlyBehind(r: seq<AuthorizedMessage>, m: AuthorizedMessage)
    requires StrictlySorted(r, MessageKey) && r != [] && Less(MessageKey(r[|r| - 1]), MessageKey(m))
    ensures StrictlySorted(r + [m], MessageKey)
  {
    forall i | 0 <= i < |r| ensures Less(MessageKey(r[i]), MessageKey(m)) {
      assert i < |r| - 1 ==> Less(MessageKey(r[i]), MessageKey(r[|r| - 1]));
    }
  }

  /** Sorted logs of the same messages rebuild the same state, however often each stands in them. */
  lemma SameRebuilt(a: seq<AuthorizedMessage>, b: seq<AuthorizedMessage>)
    requires Sorted(a, MessageKey) && Sorted(b, MessageKey) && forall m :: m in a <==> m in b
    requires forall m, n :: m in a && n in b && m.id == n.id ==> m == n
    ensures Rebuilt(a) == Rebuilt(b)
  {
    OnceIsStrict(a);
    OnceIsStrict(b);
    SortedListUnique(Once(a), Once(b), MessageKey);
    RebuiltOnce(a);
    RebuiltOnce(b);
  }
}
