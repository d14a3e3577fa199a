/** Author enrichment of node-served posts (`runtime/src/apis.rs`): the plain form, one read per post, and the
    memoised form the paged reads use. */
module Enrichment {
  import opened Prelude

  type Account = Bytes
  type Role = (byte, Hash28)

  datatype Profile = Profile(displayName: Bytes, avatar: Bytes)

  /** The two storage maps the enrichment reads. */
  datatype Chain = Chain(profiles: map<Account, Profile>, roles: map<Account, seq<Role>>) {
    function RolesOf(who: Account): seq<Role> {
      if who in roles then roles[who] else []
    }
  }

  datatype Fields = Fields(displayName: Bytes, avatar: Bytes, roles: seq<Role>)

  datatype Quoted = Quoted(author: Account, fields: Fields, body: Bytes)

  datatype Post = Post(author: Account, fields: Fields, quoted: Option<Quoted>, body: Bytes)

  // ---------- the plain form ----------

  /** A set profile overwrites name and avatar, even with empty ones; the role badges always overwrite. */
  function Overwrite(c: Chain, author: Account, was: Fields): Fields {
    if author in c.profiles
    then Fields(c.profiles[author].displayName, c.profiles[author].avatar, c.RolesOf(author))
    else was.(roles := c.RolesOf(author))
  }

  function Plain(c: Chain, p: Post): Post {
    p.(fields := Overwrite(c, p.author, p.fields),
       quoted := if p.quoted.None? then None
                 else Some(p.quoted.value.(fields := Overwrite(c, p.quoted.value.author, p.quoted.value.fields))))
  }

  /** `enrich_author_profile`, on the post at `i`. */
  method EnrichAuthorProfile(c: Chain, posts: array<Post>, i: nat)
    requires i < posts.Length
    modifies posts
    ensures posts[..] == old(posts[..])[i := Plain(c, old(posts[i]))]
  {
    var p := posts[i];
    if p.author in c.profiles {
      var prof := c.profiles[p.author];
      posts[i] := posts[i].(fields := posts[i].fields.(displayName := prof.displayName, avatar := prof.avatar));
    }
    posts[i] := posts[i].(fields := posts[i].fields.(roles := c.RolesOf(p.author)));
    if p.quoted.Some? {
      var q := p.quoted.value;
      if q.author in c.profiles {
        var prof := c.profiles[q.author];
        q := q.(fields := q.fields.(displayName := prof.displayName, avatar := prof.avatar));
      }
      q := q.(fields := q.fields.(roles := c.RolesOf(q.author)));
      posts[i] := posts[i].(quoted := Some(q));
    }
  }

  // ---------- the memoised form ----------

  /** What one uncached read yields. */
  function Read(c: Chain, who: Account): Fields {
    if who in c.profiles
    then Fields(c.profiles[who].displayName, c.profiles[who].avatar, c.RolesOf(who))
    else Fields([], [], c.RolesOf(who))
  }

  class FieldsCache {
    var memo: map<Account, Fields>
    /** The accounts read from storage so far. */
    ghost var lookups: seq<Account>

    /** Every memo is what a read would yield, and no account was read twice. */
    ghost predicate Valid(c: Chain)
      reads this
    {
      (forall a :: a in memo ==> memo[a] == Read(c, a))
      && (forall a :: a in memo <==> a in lookups)
      && forall i, j :: 0 <= i < j < |lookups| ==> lookups[i] != lookups[j]
    }

    constructor (c: Chain)
      ensures Valid(c) && memo == map[] && lookups == []
    {
      memo, lookups := map[], [];
    }

    /** `author_fields`: exactly an uncached read, at the cost of one read per distinct account. */
    method AuthorFields(c: Chain, who: Account) returns (fields: Fields)
      requires Valid(c)
      modifies this
      ensures Valid(c) && fields == Read(c, who)
      ensures memo == old(memo)[who := Read(c, who)]
      ensures lookups == if who in old(memo) then old(lookups) else old(lookups) + [who]
    {
      if who !in memo {
        var read := if who in c.profiles
          then Fields(c.profiles[who].displayName, c.profiles[who].avatar, c.RolesOf(who))
          else Fields([], [], c.RolesOf(who));
        memo := memo[who := read];
        lookups := lookups + [who];
      }
      fields := memo[who];
      assert memo == old(memo)[who := Read(c, who)];
    }
  }

  /** Only non-empty fetched fields overwrite. */
  function Fill(read: Fields, was: Fields): Fields {
    Fields(if read.displayName != [] then read.displayName else was.displayName,
           if read.avatar != [] then read.avatar else was.avatar,
           if read.roles != [] then read.roles else was.roles)
  }

  function Memoised(c: Chain, p: Post): Post {
    p.(fields := Fill(Read(c, p.author), p.fields),
       quoted := if p.quoted.None? then None
                 else Some(p.quoted.value.(fields := Fill(Read(c, p.quoted.value.author), p.quoted.value.fields))))
  }

  /** The accounts a page mentions. */
  function Authors(posts: seq<Post>): set<Account> {
    (set p | p in posts :: p.author) + (set p | p in posts && p.quoted.Some? :: p.quoted.value.author)
  }

  lemma AuthorsSnoc(posts: seq<Post>, k: nat)
    requires k < |posts|
    ensures Authors(posts[..k + 1]) == Authors(posts[..k]) + Authors([posts[k]])
  {
    var all := posts[..k + 1];
    assert all == posts[..k] + [posts[k]];
    assert forall x :: x in all <==> x in posts[..k] || x in [posts[k]];
  }

  method FillFields(read: Fields, was: Fields) returns (now: Fields)
    ensures now == Fill(read, was)
  {
    now := was;
    if read.displayName != [] {
      now := now.(displayName := read.displayName);
    }
    if read.avatar != [] {
      now := now.(avatar := read.avatar);
    }
    if read.roles != [] {
      now := now.(roles := read.roles);
    }
  }

  /** One turn of the loop in `enrich_author_profiles`. */
  method EnrichThrough(c: Chain, cache: FieldsCache, was: Post) returns (p: Post)
    requires cache.Valid(c)
    modifies cache
    ensures cache.Valid(c) && p == Memoised(c, was)
    ensures cache.memo.Keys == old(cache.memo.Keys) + Authors([was])
  {
    hide Read, Fill, Authors;
    AuthorsOne(was);
    p := was;
    var own := cache.AuthorFields(c, p.author);
    var fields := FillFields(own, p.fields);
    p := p.(fields := fields);
    if p.quoted.Some? {
      var theirs := cache.AuthorFields(c, p.quoted.value.author);
      fields := FillFields(theirs, p.quoted.value.fields);
      p := p.(quoted := Some(p.quoted.value.(fields := fields)));
    }
  }

  lemma AuthorsOne(p: Post)
    ensures Authors([p]) == {p.author} + if p.quoted.Some? then {p.quoted.value.author} else {}
  {
    assert p in [p];
  }

  /** `enrich_author_profiles`: the cache is invisible in the posts, and each account is read once however many
      posts it wrote. */
  method EnrichAuthorProfiles(c: Chain, posts: array<Post>) returns (ghost lookups: seq<Account>)
    modifies posts
    ensures forall k :: 0 <= k < posts.Length ==> posts[k] == Memoised(c, old(posts[k]))
    ensures forall i, j :: 0 <= i < j < |lookups| ==> lookups[i] != lookups[j]
    ensures forall a :: a in lookups <==> a in Authors(old(posts[..]))
  {
    hide Memoised, Authors;
    var cache := new FieldsCache(c);
    ghost var was := posts[..];
    NoAuthors(was);
    for k := 0 to posts.Length
      invariant fresh(cache) && cache.Valid(c)
      invariant cache.memo.Keys == Authors(was[..k])
      invariant forall j :: 0 <= j < k ==> posts[j] == Memoised(c, was[j])
      invariant forall j :: k <= j < posts.Length ==> posts[j] == was[j]
    {
      AuthorsSnoc(was, k);
      var p := EnrichThrough(c, cache, posts[k]);
      posts[k] := p;
    }
    assert was[..|was|] == was;
    lookups := cache.lookups;
  }

  lemma NoAuthors(posts: seq<Post>)
    ensures Authors(posts[..0]) == {}
  {
    assert posts[..0] == [];
  }

  // ---------- what a post shows afterwards ----------

  /** Beside an author's posts stand the name and avatar of the profile, if one is set, and the account's badges. */
  predicate Shows(c: Chain, who: Account, was: Fields, now: Fields) {
    now.displayName == (if who in c.profiles then c.profiles[who].displayName else was.displayName)
    && now.avatar == (if who in c.profiles then c.profiles[who].avatar else was.avatar)
    && now.roles == (if who in c.roles then c.roles[who] else [])
  }

  /** Nothing but the two authors' fields changes, and each shows its own account. */
  predicate OnlyShows(c: Chain, was: Post, now: Post) {
    now.author == was.author && now.body == was.body && Shows(c, was.author, was.fields, now.fields)
    && (was.quoted.None? ==> now.quoted.None?)
    && (was.quoted.Some? ==>
          now.quoted.Some? && now.quoted.value.author == was.quoted.value.author
          && now.quoted.value.body == was.quoted.value.body
          && Shows(c, was.quoted.value.author, was.quoted.value.fields, now.quoted.value.fields))
  }

  /** The plain form shows the chain on every post, the memoised one wherever nothing is stale. */
  lemma EnrichedShows(c: Chain, p: Post)
    ensures OnlyShows(c, p, Plain(c, p))
    ensures OnlyShows(c, p, Memoised(c, p)) <==> Fresh(c, p)
  {
    AgreeIff(c, p);
    ShownOnce(c, p, Plain(c, p), Memoised(c, p));
  }

  lemma ShownOnce(c: Chain, was: Post, a: Post, b: Post)
    requires OnlyShows(c, was, a)
    ensures OnlyShows(c, was, b) <==> a == b
  {
  }

  // ---------- when the two agree ----------

  /** Nothing stale stands where a read comes back empty. */
  predicate NothingStale(c: Chain, author: Account, was: Fields) {
    (author in c.profiles && c.profiles[author].displayName == [] ==> was.displayName == [])
    && (author in c.profiles && c.profiles[author].avatar == [] ==> was.avatar == [])
    && (c.RolesOf(author) == [] ==> was.roles == [])
  }

  predicate Fresh(c: Chain, p: Post) {
    NothingStale(c, p.author, p.fields)
    && (p.quoted.Some? ==> NothingStale(c, p.quoted.value.author, p.quoted.value.fields))
  }

  lemma FieldsAgreeIff(c: Chain, author: Account, was: Fields)
    ensures Fill(Read(c, author), was) == Overwrite(c, author, was) <==> NothingStale(c, author, was)
  {
  }

  /** The two forms agree on a post exactly when no stale field meets an empty read. */
  lemma AgreeIff(c: Chain, p: Post)
    ensures Memoised(c, p) == Plain(c, p) <==> Fresh(c, p)
  {
    hide Fill, Read, Overwrite, NothingStale;
    FieldsAgreeIff(c, p.author, p.fields);
    if p.quoted.Some? {
      FieldsAgreeIff(c, p.quoted.value.author, p.quoted.value.fields);
    }
  }

  predicate StartsEmpty(p: Post) {
    p.fields == Fields([], [], []) && (p.quoted.Some? ==> p.quoted.value.fields == Fields([], [], []))
  }

  /** The case every caller is in: pages whose author fields start empty. */
  lemma EmptyPagesAgree(c: Chain, posts: seq<Post>)
    requires forall p :: p in posts ==> StartsEmpty(p)
    ensures forall p :: p in posts ==> Memoised(c, p) == Plain(c, p)
  {
    hide Memoised, Plain;
    forall p | p in posts
      ensures Memoised(c, p) == Plain(c, p)
    {
      AgreeIff(c, p);
    }
  }

  /** Outside that case they differ: an emptied profile still shows its old name in the memoised form. */
  lemma StaleNameSurvives(c: Chain, p: Post)
    requires p.author in c.profiles && c.profiles[p.author].displayName == [] && p.fields.displayName != []
    ensures Memoised(c, p).fields.displayName == p.fields.displayName && Plain(c, p).fields.displayName == []
  {
  }
}
