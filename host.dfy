/**
 * The lobby-hosting page: the reward counts a host edits one unit at a time,
 * the draft restored from and saved to browser storage, and the sequence of
 * requests the "Go" button issues to create a lobby.
 *
 * Browser storage, the authentication client and the store are not modelled
 * as services: what they answer is given as parameters, and what the page
 * asks of them is returned as a list of requests in the order issued.
 */
module Host {
  import opened Optional
  import opened Slug

  // ---------------------------------------------------------------------------
  // Rewards

  /** The reward record: item name to how many of it the raid drops. */
  type Rewards = map<string, int>

  /** The count the page reads for `name`, 0 when the key is absent. */
  function CountOf(m: Rewards, name: string): int {
    if name in m then m[name] else 0
  }

  /** No count is negative. */
  predicate ValidRewards(m: Rewards) {
    forall k :: k in m ==> m[k] >= 0
  }

  /** `handleItemAdded`: raise the count of `name` by one, starting from 0 when absent. */
  function AddReward(m: Rewards, name: string): (r: Rewards)
    ensures name in r && r[name] == CountOf(m, name) + 1
    ensures r.Keys == m.Keys + {name}
    ensures forall k :: k in m && k != name ==> r[k] == m[k]
  {
    m[name := CountOf(m, name) + 1]
  }

  /**
   * The page draws `m[name]` remove buttons for `name` (lodash `times`, which
   * draws nothing for a count below 1).
   */
  function IconsFor(count: int): nat {
    if count > 0 then count else 0
  }

  /** A remove button for `name` is on the page. */
  predicate HasRemoveIcon(m: Rewards, name: string) {
    name in m && IconsFor(m[name]) > 0
  }

  /**
   * `handleItemRemoved`: lower the count of `name` by one. It is only wired to
   * the remove buttons, so a button for `name` is on the page. A count that
   * reaches 0 stays in the record.
   */
  function RemoveReward(m: Rewards, name: string): (r: Rewards)
    requires HasRemoveIcon(m, name)
    ensures name in r && r[name] == m[name] - 1 && r[name] >= 0
    ensures r.Keys == m.Keys
    ensures forall k :: k in m && k != name ==> r[k] == m[k]
  {
    m[name := m[name] - 1]
  }

  /** Adding and removing keep every count non-negative. */
  lemma RewardEditsKeepValid(m: Rewards, name: string)
    requires ValidRewards(m)
    ensures ValidRewards(AddReward(m, name))
    ensures HasRemoveIcon(m, name) ==> ValidRewards(RemoveReward(m, name))
    ensures HasRemoveIcon(m, name) <==> CountOf(m, name) >= 1
  {
  }

  /** A remove of `name` undoes an add of `name`, except that a new key stays at 0. */
  lemma AddThenRemove(m: Rewards, name: string)
    requires ValidRewards(m)
    ensures HasRemoveIcon(AddReward(m, name), name)
    ensures RemoveReward(AddReward(m, name), name) == if name in m then m else m[name := 0]
    ensures CountOf(RemoveReward(AddReward(m, name), name), name) == CountOf(m, name)
  {
  }

  /** An add of `name` undoes a remove of `name`. */
  lemma RemoveThenAdd(m: Rewards, name: string)
    requires HasRemoveIcon(m, name)
    ensures AddReward(RemoveReward(m, name), name) == m
  {
  }

  /** The number of remove buttons on the page: the sum of the counts drawn. */
  ghost function IconCount(m: Rewards): nat
    decreases |m|
  {
    if m == map[] then 0
    else
      var k :| k in m;
      IconsFor(m[k]) + IconCount(m - {k})
  }

  /** The sum does not depend on which key is taken out first. */
  lemma {:induction false} IconCountWithout(m: Rewards, k: string)
    requires k in m
    ensures IconCount(m) == IconsFor(m[k]) + IconCount(m - {k})
    decreases |m|
  {
    var j :| j in m && IconCount(m) == IconsFor(m[j]) + IconCount(m - {j});
    if j != k {
      assert |m - {j}| < |m|;
      IconCountWithout(m - {j}, k);
      IconCountWithout(m - {k}, j);
      assert m - {j} - {k} == m - {k} - {j};
    }
  }

  /** Adding a reward draws one more remove button. */
  lemma AddRewardIcons(m: Rewards, name: string)
    requires ValidRewards(m)
    ensures IconCount(AddReward(m, name)) == IconCount(m) + 1
  {
    var r := AddReward(m, name);
    IconCountWithout(r, name);
    assert r - {name} == m - {name};
    if name in m {
      IconCountWithout(m, name);
    } else {
      assert m - {name} == m;
    }
  }

  /** Removing a reward draws one fewer remove button. */
  lemma RemoveRewardIcons(m: Rewards, name: string)
    requires HasRemoveIcon(m, name)
    ensures IconCount(RemoveReward(m, name)) == IconCount(m) - 1
  {
    var r := RemoveReward(m, name);
    IconCountWithout(r, name);
    IconCountWithout(m, name);
    assert r - {name} == m - {name};
  }

  // ---------------------------------------------------------------------------
  // The draft

  /** A PokeAPI named resource; only `name` is read by the page. */
  datatype Resource = Resource(name: string, url: string)

  /** The form state of the page. */
  datatype Draft = Draft(repeat: bool, stars: int, pokemon: Option<Resource>, description: string, rewards: Rewards)

  /**
   * The parsed `RE_SAVED_LOBBY` storage entry; a field is `None` when it is
   * missing or `null`.
   */
  datatype SavedLobby = SavedLobby(
    pokemon: Option<Resource>, stars: Option<int>, rewards: Option<Rewards>,
    repeat: Option<bool>, description: Option<string>)

  /**
   * The initial form state, from the parsed storage entry when there is one.
   * `repeat` starts `true` whatever was saved.
   */
  function InitialDraft(saved: Option<SavedLobby>): (d: Draft)
    ensures d.repeat
    ensures saved.None? ==> d == Draft(true, 5, None, "", map[])
    ensures saved.Some? && saved.value.stars.Some? ==> d.stars == saved.value.stars.value
    ensures saved.Some? && saved.value.description.Some? ==> d.description == saved.value.description.value
    ensures saved.Some? && saved.value.rewards.Some? ==> d.rewards == saved.value.rewards.value
    ensures saved.Some? ==> d.pokemon == saved.value.pokemon
    ensures saved.Some? && saved.value.stars.None? ==> d.stars == 5
    ensures saved.Some? && saved.value.description.None? ==> d.description == ""
    ensures saved.Some? && saved.value.rewards.None? ==> d.rewards == map[]
  {
    match saved
    case None => Draft(true, 5, None, "", map[])
    case Some(s) => Draft(true, s.stars.GetOr(5), s.pokemon, s.description.GetOr(""), s.rewards.GetOr(map[]))
  }

  /**
   * The entry the page writes before creating a lobby. Reading it back
   * restores the draft, except that `repeat` is again `true`.
   */
  function SaveDraft(d: Draft): (s: SavedLobby)
    ensures s.repeat == Some(d.repeat)
    ensures InitialDraft(Some(s)) == d.(repeat := true)
  {
    SavedLobby(d.pokemon, Some(d.stars), Some(d.rewards), Some(d.repeat), Some(d.description))
  }

  // ---------------------------------------------------------------------------
  // Creating a lobby

  /** The signed-in user. */
  datatype User = User(id: string)

  /** The store's answer to the slug existence query: its exact count, or an error (`count` is null). */
  datatype CountReply = Counted(n: int) | QueryFailed

  /** The store's answer to the lobby insert: the new row's id, or an error. */
  datatype InsertReply = Inserted(id: int) | Rejected

  /** The lobby row the page inserts. */
  datatype LobbyRow = LobbyRow(
    slug: string, stars: int, description: string, pokemonName: string,
    repeat: bool, rewards: Rewards, hostId: string)

  /** What the page asks of browser storage, the auth client, the store and the router, in order. */
  datatype Request =
    | StoreDraft(saved: SavedLobby)
    | SignIn(redirectTo: string)
    | CheckSlug(slug: string)
    | InsertLobby(row: LobbyRow)
    | InsertMember(lobbyId: int, userId: string)
    | Navigate(path: string)

  /** How the creation attempt ends. */
  datatype Outcome =
    | AwaitingSignIn
    | MissingPokemon    // reading the name of an unset Pokémon throws a TypeError before the insert
    | InsertFailed
    | Created(slug: string)
    | OutOfCandidates   // the given candidates ran out; the page would keep drawing

  /** The slug each pick generates, in drawing order. */
  function Candidates(picks: seq<SlugPicks>): (c: seq<string>)
    ensures |c| == |picks|
  {
    seq(|picks|, i requires 0 <= i < |picks| => GenerateSlug(picks[i]))
  }

  /** A prefix of the candidates holds the slugs of the first picks. */
  lemma CandidatesPrefix(picks: seq<SlugPicks>, checked: seq<string>)
    requires |checked| <= |picks| && checked == Candidates(picks)[..|checked|]
    ensures forall i :: 0 <= i < |checked| ==> checked[i] == GenerateSlug(picks[i])
  {
  }

  /**
   * The index of the first candidate whose existence check does not answer a
   * count of 1, or the number of candidates when every one is answered 1.
   */
  function FirstFree(c: seq<string>, slugCount: string -> CountReply): (k: nat)
    ensures k <= |c|
    ensures forall j :: 0 <= j < k ==> slugCount(c[j]) == Counted(1)
    ensures k < |c| ==> slugCount(c[k]) != Counted(1)
  {
    if c == [] then 0
    else if slugCount(c[0]) != Counted(1) then 0
    else 1 + FirstFree(c[1..], slugCount)
  }

  /** How many candidates the retry loop checks: up to and including the first free one. */
  function ChecksMade(c: seq<string>, slugCount: string -> CountReply): nat {
    if FirstFree(c, slugCount) < |c| then FirstFree(c, slugCount) + 1 else |c|
  }

  /**
   * A run of checks that stops at the first answer other than a count of 1,
   * or after every pick, is exactly the candidates up to the first free one.
   */
  lemma CheckedUpToFirstFree(c: seq<string>, slugCount: string -> CountReply, checked: seq<string>, found: bool)
    requires |checked| <= |c| && checked == c[..|checked|]
    requires forall i :: 0 <= i < |checked| - 1 ==> slugCount(checked[i]) == Counted(1)
    requires found <==> |checked| > 0 && slugCount(checked[|checked| - 1]) != Counted(1)
    requires !found ==> |checked| == |c|
    ensures checked == c[..ChecksMade(c, slugCount)]
    ensures found <==> FirstFree(c, slugCount) < |c|
    ensures found ==> checked[|checked| - 1] == c[FirstFree(c, slugCount)]
  {
    var k := FirstFree(c, slugCount);
    var n := |checked|;
    assert forall i :: 0 <= i < n ==> checked[i] == c[i];
    if found {
      assert forall i :: 0 <= i < n - 1 ==> slugCount(c[i]) == Counted(1);
      assert slugCount(c[n - 1]) != Counted(1);
      assert k == n - 1;
    } else {
      assert forall i :: 0 <= i < |c| ==> slugCount(c[i]) == Counted(1);
      assert k == |c|;
      assert checked == c[..|c|];
    }
  }

  /**
   * The slug retry loop: draw a slug from the next picks and ask the store
   * whether it exists, until the answer is not a count of 1. Returns the slug
   * and the slugs checked, in order.
   */
  method FindFreeSlug(picks: seq<SlugPicks>, slugCount: string -> CountReply) returns (slug: Option<string>, checked: seq<string>)
    ensures |checked| <= |picks|
    ensures forall i :: 0 <= i < |checked| ==> checked[i] == GenerateSlug(picks[i])
    ensures forall i :: 0 <= i < |checked| - 1 ==> slugCount(checked[i]) == Counted(1)
    ensures slug.Some? <==> |checked| > 0 && slugCount(checked[|checked| - 1]) != Counted(1)
    ensures slug.Some? ==> slug.value == checked[|checked| - 1]
    ensures slug.None? ==> |checked| == |picks|
    ensures checked == Candidates(picks)[..ChecksMade(Candidates(picks), slugCount)]
    ensures slug.Some? <==> FirstFree(Candidates(picks), slugCount) < |picks|
    ensures slug.Some? ==> slug.value == Candidates(picks)[FirstFree(Candidates(picks), slugCount)]
  {
    ghost var c := Candidates(picks);
    checked := [];
    slug := None;
    var k := 0;
    while slug.None? && k < |picks|
      invariant 0 <= k <= |picks| && checked == c[..k]
      invariant forall i :: 0 <= i < k - 1 ==> slugCount(checked[i]) == Counted(1)
      invariant slug.None? ==> forall i :: 0 <= i < k ==> slugCount(checked[i]) == Counted(1)
      invariant slug.Some? ==> k > 0 && slug.value == c[k - 1] && slugCount(c[k - 1]) != Counted(1)
      decreases |picks| - k
    {
      var candidate := GenerateSlug(picks[k]);
      assert candidate == c[k];
      var reply := slugCount(candidate);
      checked := checked + [candidate];
      k := k + 1;
      if reply != Counted(1) {
        slug := Some(candidate);
      }
    }
    assert slug.Some? ==> checked[k - 1] == c[k - 1];
    CheckedUpToFirstFree(c, slugCount, checked, slug.Some?);
    CandidatesPrefix(picks, checked);
  }

  /** The requests that check each slug in order. */
  function CheckRequests(slugs: seq<string>): (r: seq<Request>)
    ensures |r| == |slugs|
    ensures forall i :: 0 <= i < |r| ==> r[i] == CheckSlug(slugs[i])
  {
    seq(|slugs|, i requires 0 <= i < |slugs| => CheckSlug(slugs[i]))
  }

  /** Some request of `rs` is a lobby insert. */
  predicate HasLobbyInsert(rs: seq<Request>) {
    exists i :: 0 <= i < |rs| && rs[i].InsertLobby?
  }

  /** Some request of `rs` is a membership insert. */
  predicate HasMemberInsert(rs: seq<Request>) {
    exists i :: 0 <= i < |rs| && rs[i].InsertMember?
  }

  /** The draft is saved first, and only then. */
  predicate SavedFirst(rs: seq<Request>, saved: SavedLobby) {
    && |rs| >= 1 && rs[0] == StoreDraft(saved)
    && forall i :: 0 < i < |rs| ==> !rs[i].StoreDraft?
  }

  /** No sign-in is started. */
  predicate NoSignIn(rs: seq<Request>) {
    forall i :: 0 <= i < |rs| ==> !rs[i].SignIn?
  }

  /** A navigation, if any, is the last request. */
  predicate NavigateLast(rs: seq<Request>) {
    forall i :: 0 <= i < |rs| && rs[i].Navigate? ==> i == |rs| - 1
  }

  /**
   * The slug checks come right after the save, one per pick in generation
   * order, and every check before the last found its slug taken.
   */
  predicate ChecksInOrder(rs: seq<Request>, picks: seq<SlugPicks>, slugCount: string -> CountReply) {
    && (forall i :: 0 <= i < |rs| && rs[i].CheckSlug? ==> 1 <= i <= |picks| && rs[i].slug == GenerateSlug(picks[i - 1]))
    && (forall i, j :: 0 <= i < j < |rs| && rs[i].CheckSlug? && rs[j].CheckSlug? ==> slugCount(rs[i].slug) == Counted(1))
  }

  /**
   * At most one lobby insert; it carries the host's id and the draft's fields,
   * follows every slug check, and its slug is the last one checked, which the
   * store did not report taken.
   */
  predicate LobbyInsertValid(rs: seq<Request>, draft: Draft, user: Option<User>, slugCount: string -> CountReply) {
    && (forall i, j :: 0 <= i < |rs| && 0 <= j < |rs| && rs[i].InsertLobby? && rs[j].InsertLobby? ==> i == j)
    && forall i :: 0 <= i < |rs| && rs[i].InsertLobby? ==>
      && user.Some? && draft.pokemon.Some?
      && rs[i].row == LobbyRow(rs[i].row.slug, draft.stars, draft.description,
                               draft.pokemon.value.name, draft.repeat, draft.rewards, user.value.id)
      && slugCount(rs[i].row.slug) != Counted(1)
      && i >= 1 && rs[i - 1] == CheckSlug(rs[i].row.slug)
      && forall j :: 0 <= j < |rs| && rs[j].CheckSlug? ==> j < i
  }

  /** Every membership insert directly follows the lobby insert and adds the user to the lobby the store created. */
  predicate MemberInsertValid(rs: seq<Request>, user: Option<User>, insert: InsertReply) {
    forall i :: 0 <= i < |rs| && rs[i].InsertMember? ==>
      && i >= 1 && rs[i - 1].InsertLobby?
      && insert == Inserted(rs[i].lobbyId)
      && user.Some? && rs[i].userId == user.value.id
  }

  /** Requests without inserts satisfy both insert predicates vacuously. */
  lemma NoInsertsValid(rs: seq<Request>, draft: Draft, user: Option<User>, slugCount: string -> CountReply, insert: InsertReply)
    requires !HasLobbyInsert(rs) && !HasMemberInsert(rs)
    ensures LobbyInsertValid(rs, draft, user, slugCount) && MemberInsertValid(rs, user, insert)
  {
  }

  /** The two requests of a creation without a user: save the draft, then start sign-in. */
  lemma SignInTrace(saved: SavedLobby, url: string, picks: seq<SlugPicks>, slugCount: string -> CountReply)
    ensures SavedFirst([StoreDraft(saved), SignIn(url)], saved)
    ensures ChecksInOrder([StoreDraft(saved), SignIn(url)], picks, slugCount)
    ensures !HasLobbyInsert([StoreDraft(saved), SignIn(url)]) && !HasMemberInsert([StoreDraft(saved), SignIn(url)])
    ensures NavigateLast([StoreDraft(saved), SignIn(url)])
  {
  }

  /** The facts about the save and the slug checks, for the requests issued before any insert. */
  lemma PrefixTrace(saved: SavedLobby, checked: seq<string>, picks: seq<SlugPicks>, slugCount: string -> CountReply)
    requires |checked| <= |picks|
    requires forall i :: 0 <= i < |checked| ==> checked[i] == GenerateSlug(picks[i])
    requires forall i :: 0 <= i < |checked| - 1 ==> slugCount(checked[i]) == Counted(1)
    ensures SavedFirst([StoreDraft(saved)] + CheckRequests(checked), saved)
    ensures ChecksInOrder([StoreDraft(saved)] + CheckRequests(checked), picks, slugCount)
    ensures NoSignIn([StoreDraft(saved)] + CheckRequests(checked))
    ensures !HasLobbyInsert([StoreDraft(saved)] + CheckRequests(checked))
    ensures !HasMemberInsert([StoreDraft(saved)] + CheckRequests(checked))
  {
    var rs := [StoreDraft(saved)] + CheckRequests(checked);
    assert forall i :: 1 <= i < |rs| ==> rs[i] == CheckSlug(checked[i - 1]);
  }

  /** Appending the insert requests keeps the facts about the save and the slug checks. */
  lemma AppendInserts(rs: seq<Request>, tail: seq<Request>, saved: SavedLobby, picks: seq<SlugPicks>, slugCount: string -> CountReply)
    requires SavedFirst(rs, saved) && ChecksInOrder(rs, picks, slugCount) && NoSignIn(rs)
    requires forall i :: 0 <= i < |tail| ==> tail[i].InsertLobby? || tail[i].InsertMember? || tail[i].Navigate?
    ensures SavedFirst(rs + tail, saved) && ChecksInOrder(rs + tail, picks, slugCount) && NoSignIn(rs + tail)
  {
    var all := rs + tail;
    assert forall i :: |rs| <= i < |all| ==> all[i] == tail[i - |rs|];
  }

  /** The lobby insert placed after the last slug check, followed by requests that are not lobby inserts. */
  lemma LobbyTrace(
    rs: seq<Request>, row: LobbyRow, tail: seq<Request>,
    draft: Draft, user: Option<User>, slugCount: string -> CountReply)
    requires !HasLobbyInsert(rs)
    requires |rs| >= 1 && rs[|rs| - 1] == CheckSlug(row.slug)
    requires forall j :: 0 <= j < |rs| ==> !rs[j].InsertLobby? && !rs[j].InsertMember?
    requires user.Some? && draft.pokemon.Some?
    requires row == LobbyRow(row.slug, draft.stars, draft.description,
                             draft.pokemon.value.name, draft.repeat, draft.rewards, user.value.id)
    requires slugCount(row.slug) != Counted(1)
    requires forall i :: 0 <= i < |tail| ==> !tail[i].InsertLobby? && !tail[i].CheckSlug?
    ensures LobbyInsertValid(rs + [InsertLobby(row)] + tail, draft, user, slugCount)
    ensures HasLobbyInsert(rs + [InsertLobby(row)] + tail)
  {
    var all := rs + [InsertLobby(row)] + tail;
    var k := |rs|;
    assert all[k] == InsertLobby(row);
    assert forall i :: 0 <= i < k ==> all[i] == rs[i];
    assert forall i :: k < i < |all| ==> all[i] == tail[i - k - 1];
  }

  /** The membership insert and the navigation that follow a successful lobby insert, or nothing after a failed one. */
  lemma MemberTrace(rs: seq<Request>, row: LobbyRow, user: User, insert: InsertReply)
    requires forall j :: 0 <= j < |rs| ==> !rs[j].InsertMember?
    ensures var all := rs + [InsertLobby(row)] + InsertTail(row, user, insert);
      && MemberInsertValid(all, Some(user), insert)
      && (HasMemberInsert(all) <==> insert.Inserted?)
      && (insert.Inserted? ==>
            && all[|all| - 3] == InsertLobby(row)
            && all[|all| - 1] == Navigate("/lobby/" + row.slug))
  {
    var all := rs + [InsertLobby(row)] + InsertTail(row, user, insert);
    var k := |rs|;
    assert forall i :: 0 <= i < k ==> all[i] == rs[i];
    assert all[k] == InsertLobby(row);
    if insert.Inserted? {
      assert all[k + 1] == InsertMember(insert.id, user.id);
    } else {
      assert |all| == k + 1;
    }
  }

  /** What follows the lobby insert: the host's membership and the navigation, once the store answers with an id. */
  function InsertTail(row: LobbyRow, user: User, insert: InsertReply): seq<Request> {
    match insert
    case Rejected => []
    case Inserted(id) => [InsertMember(id, user.id), Navigate("/lobby/" + row.slug)]
  }

  /** The requests of a creation that reaches the lobby insert. */
  function InsertPath(saved: SavedLobby, checked: seq<string>, row: LobbyRow, user: User, insert: InsertReply): seq<Request> {
    [StoreDraft(saved)] + CheckRequests(checked) + [InsertLobby(row)] + InsertTail(row, user, insert)
  }

  /** The save and the slug checks of a creation that reaches the lobby insert. */
  lemma InsertPathChecks(
    saved: SavedLobby, user: User, checked: seq<string>, row: LobbyRow, insert: InsertReply,
    picks: seq<SlugPicks>, slugCount: string -> CountReply)
    requires |checked| <= |picks|
    requires forall i :: 0 <= i < |checked| ==> checked[i] == GenerateSlug(picks[i])
    requires forall i :: 0 <= i < |checked| - 1 ==> slugCount(checked[i]) == Counted(1)
    ensures SavedFirst(InsertPath(saved, checked, row, user, insert), saved)
    ensures NoSignIn(InsertPath(saved, checked, row, user, insert))
    ensures ChecksInOrder(InsertPath(saved, checked, row, user, insert), picks, slugCount)
  {
    var prefix := [StoreDraft(saved)] + CheckRequests(checked);
    var tail := InsertTail(row, user, insert);
    PrefixTrace(saved, checked, picks, slugCount);
    AppendInserts(prefix, [InsertLobby(row)] + tail, saved, picks, slugCount);
    assert prefix + ([InsertLobby(row)] + tail) == InsertPath(saved, checked, row, user, insert);
  }

  /** The lobby insert of a creation that reaches it. */
  lemma InsertPathLobby(
    draft: Draft, user: User, checked: seq<string>, row: LobbyRow, insert: InsertReply,
    slugCount: string -> CountReply)
    requires |checked| > 0 && row.slug == checked[|checked| - 1] && slugCount(row.slug) != Counted(1)
    requires draft.pokemon.Some?
    requires row == LobbyRow(row.slug, draft.stars, draft.description,
                             draft.pokemon.value.name, draft.repeat, draft.rewards, user.id)
    ensures LobbyInsertValid(InsertPath(SaveDraft(draft), checked, row, user, insert), draft, Some(user), slugCount)
    ensures HasLobbyInsert(InsertPath(SaveDraft(draft), checked, row, user, insert))
  {
    var prefix := [StoreDraft(SaveDraft(draft))] + CheckRequests(checked);
    assert forall j :: 0 <= j < |prefix| ==> !prefix[j].InsertLobby? && !prefix[j].InsertMember?;
    assert prefix[|prefix| - 1] == CheckSlug(row.slug);
    LobbyTrace(prefix, row, InsertTail(row, user, insert), draft, Some(user), slugCount);
  }

  /** The membership insert of a creation that reaches the lobby insert. */
  lemma InsertPathMember(saved: SavedLobby, user: User, checked: seq<string>, row: LobbyRow, insert: InsertReply)
    ensures var rs := InsertPath(saved, checked, row, user, insert);
      && MemberInsertValid(rs, Some(user), insert)
      && (HasMemberInsert(rs) <==> insert.Inserted?)
      && (insert.Inserted? ==>
            && rs[|rs| - 3] == InsertLobby(row)
            && rs[|rs| - 1] == Navigate("/lobby/" + row.slug))
  {
    var prefix := [StoreDraft(saved)] + CheckRequests(checked);
    assert forall j :: 0 <= j < |prefix| ==> !prefix[j].InsertMember?;
    MemberTrace(prefix, row, user, insert);
  }

  /** The layout of a creation that reaches the lobby insert: save, checks, lobby insert, then the tail. */
  lemma InsertPathShape(saved: SavedLobby, checked: seq<string>, row: LobbyRow, user: User, insert: InsertReply)
    ensures var rs := InsertPath(saved, checked, row, user, insert);
      && |rs| == 2 + |checked| + |InsertTail(row, user, insert)|
      && rs[..1 + |checked|] == [StoreDraft(saved)] + CheckRequests(checked)
      && rs[1 + |checked|] == InsertLobby(row)
      && rs[2 + |checked|..] == InsertTail(row, user, insert)
      && NavigateLast(rs)
  {
    var prefix := [StoreDraft(saved)] + CheckRequests(checked);
    var rs := InsertPath(saved, checked, row, user, insert);
    assert rs == prefix + ([InsertLobby(row)] + InsertTail(row, user, insert));
    assert forall i :: 0 <= i < |prefix| ==> !prefix[i].Navigate?;
  }

  /**
   * The requests of a signed-in creation, determined in full: the save, the
   * checks of the candidates up to and including the first free one, then
   * (with a Pokémon) the lobby insert with that slug, then the membership
   * insert and the navigation once the lobby insert succeeds.
   */
  predicate SignedInRequests(
    rs: seq<Request>, outcome: Outcome, draft: Draft, userId: string,
    picks: seq<SlugPicks>, slugCount: string -> CountReply, insert: InsertReply)
  {
    var c := Candidates(picks);
    var k := FirstFree(c, slugCount);
    var m := ChecksMade(c, slugCount);
    && |rs| >= 1 + m
    && rs[..1 + m] == [StoreDraft(SaveDraft(draft))] + CheckRequests(c[..m])
    && (outcome.OutOfCandidates? <==> k == |c|)
    && (outcome.MissingPokemon? <==> k < |c| && draft.pokemon.None?)
    && (k == |c| || draft.pokemon.None? ==> |rs| == 1 + m)
    && (k < |c| && draft.pokemon.Some? ==>
          && |rs| >= 2 + m
          && rs[1 + m] == InsertLobby(LobbyRow(c[k], draft.stars, draft.description,
                                       draft.pokemon.value.name, draft.repeat, draft.rewards, userId))
          && rs[2 + m..] == match insert
              case Rejected => []
              case Inserted(id) => [InsertMember(id, userId), Navigate("/lobby/" + c[k])])
  }

  /** A signed-in creation whose every candidate slug is taken. */
  lemma SignedInOutOfCandidates(
    draft: Draft, userId: string, picks: seq<SlugPicks>, slugCount: string -> CountReply,
    insert: InsertReply, checked: seq<string>)
    requires checked == Candidates(picks)[..ChecksMade(Candidates(picks), slugCount)]
    requires FirstFree(Candidates(picks), slugCount) == |picks|
    ensures SignedInRequests([StoreDraft(SaveDraft(draft))] + CheckRequests(checked), OutOfCandidates, draft, userId, picks, slugCount, insert)
    ensures NavigateLast([StoreDraft(SaveDraft(draft))] + CheckRequests(checked))
    ensures forall i :: 0 <= i < |picks| ==> slugCount(GenerateSlug(picks[i])) == Counted(1)
    ensures checked == Candidates(picks)
  {
    var rs := [StoreDraft(SaveDraft(draft))] + CheckRequests(checked);
    assert rs[..1 + |checked|] == rs;
    assert forall i :: 0 <= i < |picks| ==> Candidates(picks)[i] == GenerateSlug(picks[i]);
  }

  /** A signed-in creation that finds a free slug but has no Pokémon to host. */
  lemma SignedInMissingPokemon(
    draft: Draft, userId: string, picks: seq<SlugPicks>, slugCount: string -> CountReply,
    insert: InsertReply, checked: seq<string>)
    requires checked == Candidates(picks)[..ChecksMade(Candidates(picks), slugCount)]
    requires FirstFree(Candidates(picks), slugCount) < |picks| && draft.pokemon.None?
    ensures SignedInRequests([StoreDraft(SaveDraft(draft))] + CheckRequests(checked), MissingPokemon, draft, userId, picks, slugCount, insert)
    ensures NavigateLast([StoreDraft(SaveDraft(draft))] + CheckRequests(checked))
  {
    var rs := [StoreDraft(SaveDraft(draft))] + CheckRequests(checked);
    assert rs[..1 + |checked|] == rs;
  }

  /** A signed-in creation that reaches the lobby insert. */
  lemma SignedInInserts(
    draft: Draft, user: User, picks: seq<SlugPicks>, slugCount: string -> CountReply,
    insert: InsertReply, checked: seq<string>, row: LobbyRow)
    requires checked == Candidates(picks)[..ChecksMade(Candidates(picks), slugCount)]
    requires FirstFree(Candidates(picks), slugCount) < |picks| && draft.pokemon.Some?
    requires row == LobbyRow(Candidates(picks)[FirstFree(Candidates(picks), slugCount)], draft.stars,
                             draft.description, draft.pokemon.value.name, draft.repeat, draft.rewards, user.id)
    ensures SignedInRequests(InsertPath(SaveDraft(draft), checked, row, user, insert),
                             if insert.Rejected? then InsertFailed else Created(row.slug),
                             draft, user.id, picks, slugCount, insert)
  {
    InsertPathShape(SaveDraft(draft), checked, row, user, insert);
  }

  /**
   * `handleCreateLobby`: save the draft; without a user, start sign-in and
   * stop; otherwise find a free slug, insert the lobby, and only if that
   * succeeds insert the host as the first queue member and open the lobby.
   * `loading` is the spinner flag afterwards.
   */
  method CreateLobby(
    draft: Draft, user: Option<User>, url: string,
    picks: seq<SlugPicks>, slugCount: string -> CountReply, insert: InsertReply)
    returns (requests: seq<Request>, outcome: Outcome, loading: bool)
    ensures SavedFirst(requests, SaveDraft(draft))
    ensures user.None? <==> outcome == AwaitingSignIn
    ensures user.None? ==> requests == [StoreDraft(SaveDraft(draft)), SignIn(url)]
    ensures user.Some? ==> NoSignIn(requests)
    ensures ChecksInOrder(requests, picks, slugCount)
    ensures LobbyInsertValid(requests, draft, user, slugCount)
    ensures HasLobbyInsert(requests) <==> outcome.InsertFailed? || outcome.Created?
    ensures outcome.MissingPokemon? ==> draft.pokemon.None?
    ensures outcome.InsertFailed? <==> HasLobbyInsert(requests) && insert.Rejected?
    ensures HasMemberInsert(requests) <==> outcome.Created?
    ensures MemberInsertValid(requests, user, insert)
    ensures outcome.Created? ==>
      && |requests| >= 3
      && requests[|requests| - 3].InsertLobby? && requests[|requests| - 3].row.slug == outcome.slug
      && requests[|requests| - 1] == Navigate("/lobby/" + outcome.slug)
    ensures loading <==> !outcome.InsertFailed?
    ensures NavigateLast(requests)
    ensures user.Some? ==> SignedInRequests(requests, outcome, draft, user.value.id, picks, slugCount, insert)
    ensures user.Some? && draft.pokemon.Some? && (exists i :: 0 <= i < |picks| && slugCount(GenerateSlug(picks[i])) != Counted(1))
      ==> HasLobbyInsert(requests)
    ensures outcome.OutOfCandidates? ==>
      && (forall i :: 0 <= i < |picks| ==> slugCount(GenerateSlug(picks[i])) == Counted(1))
      && requests == [StoreDraft(SaveDraft(draft))] + CheckRequests(Candidates(picks))
  {
    loading := true;
    var saved := SaveDraft(draft);
    if user.None? {
      requests := [StoreDraft(saved), SignIn(url)];
      outcome := AwaitingSignIn;
      SignInTrace(saved, url, picks, slugCount);
      NoInsertsValid(requests, draft, user, slugCount, insert);
      return;
    }
    var slug, checked := FindFreeSlug(picks, slugCount);
    var prefix := [StoreDraft(saved)] + CheckRequests(checked);
    PrefixTrace(saved, checked, picks, slugCount);
    if slug.None? {
      requests := prefix;
      outcome := OutOfCandidates;
      SignedInOutOfCandidates(draft, user.value.id, picks, slugCount, insert, checked);
      NoInsertsValid(requests, draft, user, slugCount, insert);
      return;
    }
    if draft.pokemon.None? {
      requests := prefix;
      outcome := MissingPokemon;
      SignedInMissingPokemon(draft, user.value.id, picks, slugCount, insert, checked);
      NoInsertsValid(requests, draft, user, slugCount, insert);
      return;
    }
    var row := LobbyRow(slug.value, draft.stars, draft.description, draft.pokemon.value.name,
                        draft.repeat, draft.rewards, user.value.id);
    requests := InsertPath(saved, checked, row, user.value, insert);
    InsertPathChecks(saved, user.value, checked, row, insert, picks, slugCount);
    InsertPathLobby(draft, user.value, checked, row, insert, slugCount);
    InsertPathMember(saved, user.value, checked, row, insert);
    InsertPathShape(saved, checked, row, user.value, insert);
    SignedInInserts(draft, user.value, picks, slugCount, insert, checked, row);
    if insert.Rejected? {
      loading := false;
      outcome := InsertFailed;
    } else {
      outcome := Created(slug.value);
    }
  }
}
