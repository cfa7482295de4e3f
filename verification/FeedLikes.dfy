/**
 * Feed likes as interleaved steps: a toggle reads first and runs its
 * transaction later, while other actors and post deletions go on in between.
 */
module FeedLikes {
  import opened Options

  type PostId = string
  type ActorId = string
  type ProcessId = nat

  /** Like rows get a new id each time they are inserted. */
  type LikeId = nat

  datatype Post = Post(tenant: string, likeCount: int, expiresAt: Option<int>)

  datatype Like = Like(post: PostId, actor: ActorId)

  datatype Tables = Tables(posts: map<PostId, Post>, likes: map<LikeId, Like>, nextId: LikeId)

  /** What a toggle has read and is about to act on. */
  datatype Phase = SawLike(id: LikeId, post: PostId) | SawNone(post: PostId, actor: ActorId)

  datatype System = System(tables: Tables, phases: map<ProcessId, Phase>)

  // ---------------------------------------------------------------- transactions

  datatype Statement =
    | DeleteLike(id: LikeId)
    | InsertLike(post: PostId, actor: ActorId)
    | AddToCount(post: PostId, delta: int)

  predicate HasLike(likes: map<LikeId, Like>, post: PostId, actor: ActorId) {
    exists id :: id in likes && likes[id] == Like(post, actor)
  }

  /** One statement; None when a row is missing, a unique key is taken or a foreign key dangles. */
  function Execute(db: Tables, s: Statement): Option<Tables> {
    match s
    case DeleteLike(id) =>
      if id in db.likes then Some(db.(likes := db.likes - {id})) else None
    case InsertLike(post, actor) =>
      if post !in db.posts || HasLike(db.likes, post, actor) then None
      else Some(db.(likes := db.likes[db.nextId := Like(post, actor)], nextId := db.nextId + 1))
    case AddToCount(post, delta) =>
      if post !in db.posts then None
      else Some(db.(posts := db.posts[post := db.posts[post].(likeCount := db.posts[post].likeCount + delta)]))
  }

  function ExecuteAll(db: Tables, statements: seq<Statement>): Option<Tables>
    decreases |statements|
  {
    if statements == [] then Some(db)
    else match Execute(db, statements[0])
      case None => None
      case Some(next) => ExecuteAll(next, statements[1..])
  }

  /** All statements or none of them. */
  function Transaction(db: Tables, statements: seq<Statement>): Tables {
    match ExecuteAll(db, statements)
    case None => db
    case Some(done) => done
  }

  function StatementsOf(phase: Phase): seq<Statement> {
    match phase
    case SawLike(id, post) => [DeleteLike(id), AddToCount(post, -1)]
    case SawNone(post, actor) => [InsertLike(post, actor), AddToCount(post, 1)]
  }

  // ---------------------------------------------------------------- steps

  datatype Event =
    | Read(p: ProcessId, post: PostId, actor: ActorId)
    | Commit(p: ProcessId)
    | GiveUp(p: ProcessId)
    | Publish(post: PostId, tenant: string, expiresAt: Option<int>)
    | Delete(post: PostId, tenant: string)
    | Purge(now: int)

  /** `findUnique` on the key (post, actor). */
  ghost function FindLike(likes: map<LikeId, Like>, post: PostId, actor: ActorId): Option<LikeId> {
    if HasLike(likes, post, actor) then
      var id :| id in likes && likes[id] == Like(post, actor);
      Some(id)
    else None
  }

  ghost function PhaseRead(likes: map<LikeId, Like>, post: PostId, actor: ActorId): Phase {
    match FindLike(likes, post, actor)
    case Some(id) => SawLike(id, post)
    case None => SawNone(post, actor)
  }

  /** Deleting posts takes their likes with them. */
  function WithoutPosts(db: Tables, dead: set<PostId>): Tables {
    db.(posts := db.posts - dead, likes := map id | id in db.likes && db.likes[id].post !in dead :: db.likes[id])
  }

  function Expired(db: Tables, now: int): set<PostId> {
    set p | p in db.posts && db.posts[p].expiresAt.Some? && db.posts[p].expiresAt.value < now
  }

  ghost function Step(s: System, e: Event): System {
    match e
    case Read(p, post, actor) => s.(phases := s.phases[p := PhaseRead(s.tables.likes, post, actor)])
    case Commit(p) =>
      if p in s.phases
      then System(Transaction(s.tables, StatementsOf(s.phases[p])), s.phases - {p})
      else s
    case GiveUp(p) => s.(phases := s.phases - {p})
    case Publish(post, tenant, expiresAt) =>
      if post in s.tables.posts then s
      else s.(tables := s.tables.(posts := s.tables.posts[post := Post(tenant, 0, expiresAt)]))
    case Delete(post, tenant) =>
      if post in s.tables.posts && s.tables.posts[post].tenant == tenant
      then s.(tables := WithoutPosts(s.tables, {post}))
      else s
    case Purge(now) => s.(tables := WithoutPosts(s.tables, Expired(s.tables, now)))
  }

  ghost function Run(s: System, events: seq<Event>): System {
    if events == [] then s else Step(Run(s, events[..|events| - 1]), events[|events| - 1])
  }

  const EMPTY: System := System(Tables(map[], map[], 0), map[])

  // ---------------------------------------------------------------- the invariant

  function LikesOf(likes: map<LikeId, Like>, post: PostId): set<LikeId> {
    set id | id in likes && likes[id].post == post
  }

  /** Every like belongs to a post, nobody likes a post twice, and each counter is its number of likes. */
  ghost predicate Consistent(db: Tables) {
    && (forall id :: id in db.likes ==> id < db.nextId && db.likes[id].post in db.posts)
    && (forall a, b :: a in db.likes && b in db.likes && db.likes[a] == db.likes[b] ==> a == b)
    && (forall p :: p in db.posts ==> db.posts[p].likeCount == |LikesOf(db.likes, p)|)
  }

  /** Like ids are never reused, and a remembered id always stood for a like of the remembered post. */
  ghost predicate PhasesSound(s: System) {
    forall p :: p in s.phases && s.phases[p].SawLike? ==>
      && s.phases[p].id < s.tables.nextId
      && (s.phases[p].id in s.tables.likes ==> s.tables.likes[s.phases[p].id].post == s.phases[p].post)
  }

  ghost predicate Inv(s: System) {
    Consistent(s.tables) && PhasesSound(s)
  }

  // ---------------------------------------------------------------- each step keeps it

  lemma DeletedLikes(likes: map<LikeId, Like>, id: LikeId, post: PostId)
    requires id in likes
    ensures LikesOf(likes - {id}, post) == LikesOf(likes, post) - {id}
    ensures |LikesOf(likes - {id}, post)| == |LikesOf(likes, post)| - if likes[id].post == post then 1 else 0
  {
    assert LikesOf(likes - {id}, post) == LikesOf(likes, post) - {id};
    if likes[id].post != post {
      assert LikesOf(likes, post) - {id} == LikesOf(likes, post);
    }
  }

  lemma InsertedLikes(likes: map<LikeId, Like>, id: LikeId, like: Like, post: PostId)
    requires id !in likes
    ensures |LikesOf(likes[id := like], post)| == |LikesOf(likes, post)| + if like.post == post then 1 else 0
  {
    if like.post == post {
      assert LikesOf(likes[id := like], post) == LikesOf(likes, post) + {id};
    } else {
      assert LikesOf(likes[id := like], post) == LikesOf(likes, post);
    }
  }

  lemma TransactionOf(db: Tables, first: Statement, second: Statement)
    ensures Transaction(db, [first, second])
         == match Execute(db, first)
            case None => db
            case Some(mid) => match Execute(mid, second) case None => db case Some(done) => done
  {
    assert [first, second][1..] == [second];
    assert forall mid :: ExecuteAll(mid, [second]) == Execute(mid, second);
  }

  /** Unliking with a remembered row id: it takes effect only while that very row exists. */
  lemma UnlikeKeeps(db: Tables, id: LikeId, post: PostId)
    requires Consistent(db) && (id in db.likes ==> db.likes[id].post == post)
    ensures var after := Transaction(db, StatementsOf(SawLike(id, post)));
            && Consistent(after) && after.posts.Keys == db.posts.Keys
            && after.nextId == db.nextId
            && after.likes == db.likes - {id}
            && (id !in db.likes ==> after == db)
  {
    TransactionOf(db, DeleteLike(id), AddToCount(post, -1));
    if id in db.likes {
      forall p | p in db.posts
        ensures |LikesOf(db.likes - {id}, p)| == |LikesOf(db.likes, p)| - if p == post then 1 else 0
      {
        DeletedLikes(db.likes, id, p);
      }
    } else {
      assert db.likes - {id} == db.likes;
    }
  }

  /** Liking: it takes effect exactly when the post exists and the actor has no like on it. */
  lemma LikeKeeps(db: Tables, post: PostId, actor: ActorId)
    requires Consistent(db)
    ensures var after := Transaction(db, StatementsOf(SawNone(post, actor)));
            && Consistent(after) && after.posts.Keys == db.posts.Keys
            && (if post in db.posts && !HasLike(db.likes, post, actor)
                then after.likes == db.likes[db.nextId := Like(post, actor)] && after.nextId == db.nextId + 1
                else after == db)
  {
    TransactionOf(db, InsertLike(post, actor), AddToCount(post, 1));
    if post in db.posts && !HasLike(db.likes, post, actor) {
      forall p | p in db.posts
        ensures |LikesOf(db.likes[db.nextId := Like(post, actor)], p)|
             == |LikesOf(db.likes, p)| + if p == post then 1 else 0
      {
        InsertedLikes(db.likes, db.nextId, Like(post, actor), p);
      }
    }
  }

  lemma DeletionKeeps(db: Tables, dead: set<PostId>)
    requires Consistent(db)
    ensures Consistent(WithoutPosts(db, dead))
  {
    var after := WithoutPosts(db, dead);
    forall p | p in after.posts ensures LikesOf(after.likes, p) == LikesOf(db.likes, p) {
    }
  }

  lemma PublishKeeps(db: Tables, post: PostId, tenant: string, expiresAt: Option<int>)
    requires Consistent(db) && post !in db.posts
    ensures Consistent(db.(posts := db.posts[post := Post(tenant, 0, expiresAt)]))
  {
    assert LikesOf(db.likes, post) == {};
  }

  lemma CommitKeeps(s: System, p: ProcessId)
    requires Inv(s) && p in s.phases
    ensures Inv(Step(s, Commit(p)))
  {
    match s.phases[p]
    case SawLike(id, post) => UnlikeKeeps(s.tables, id, post);
    case SawNone(post, actor) => LikeKeeps(s.tables, post, actor);
  }

  lemma StepKeeps(s: System, e: Event)
    requires Inv(s)
    ensures Inv(Step(s, e))
  {
    match e
    case Read(p, post, actor) =>
    case Commit(p) =>
      if p in s.phases {
        CommitKeeps(s, p);
      }
    case GiveUp(p) =>
    case Publish(post, tenant, expiresAt) =>
      if post !in s.tables.posts {
        PublishKeeps(s.tables, post, tenant, expiresAt);
      }
    case Delete(post, tenant) => DeletionKeeps(s.tables, {post});
    case Purge(now) => DeletionKeeps(s.tables, Expired(s.tables, now));
  }

  /** Under every interleaving, counters equal like rows and likes are unique. */
  lemma {:induction false} EveryInterleavingIsConsistent(events: seq<Event>)
    ensures Inv(Run(EMPTY, events))
  {
    if events != [] {
      EveryInterleavingIsConsistent(events[..|events| - 1]);
      StepKeeps(Run(EMPTY, events[..|events| - 1]), events[|events| - 1]);
    }
  }

  // ---------------------------------------------------------------- what the caller is told

  /**
   * A toggle that read no like answers "liked" whether or not its transaction
   * went through; while the post exists, that answer is true.
   */
  lemma LikedIsTrue(s: System, p: ProcessId)
    requires Inv(s) && p in s.phases && s.phases[p].SawNone?
    ensures var phase := s.phases[p];
            var after := Step(s, Commit(p)).tables;
            phase.post in after.posts ==> HasLike(after.likes, phase.post, phase.actor)
  {
    var phase := s.phases[p];
    var after := Step(s, Commit(p)).tables;
    LikeKeeps(s.tables, phase.post, phase.actor);
    if phase.post in s.tables.posts && !HasLike(s.tables.likes, phase.post, phase.actor) {
      assert after.likes[s.tables.nextId] == Like(phase.post, phase.actor);
    }
  }

  /** A toggle that read a like and removed it leaves its actor without a like on the post. */
  lemma UnlikedIsTrue(s: System, p: ProcessId)
    requires Inv(s) && p in s.phases && s.phases[p].SawLike? && s.phases[p].id in s.tables.likes
    ensures var like := s.tables.likes[s.phases[p].id];
            !HasLike(Step(s, Commit(p)).tables.likes, like.post, like.actor)
  {
    UnlikeKeeps(s.tables, s.phases[p].id, s.phases[p].post);
  }

  /** Without interference, toggling twice restores the actor's state and every counter. */
  lemma ToggleTwice(s: System, p: ProcessId, post: PostId, actor: ActorId)
    requires Inv(s) && post in s.tables.posts
    ensures var once := Run(s, [Read(p, post, actor), Commit(p)]);
            var twice := Run(once, [Read(p, post, actor), Commit(p)]);
            && HasLike(once.tables.likes, post, actor) == !HasLike(s.tables.likes, post, actor)
            && HasLike(twice.tables.likes, post, actor) == HasLike(s.tables.likes, post, actor)
            && twice.tables.posts == s.tables.posts
  {
    var once := Run(s, [Read(p, post, actor), Commit(p)]);
    ToggleFlips(s, p, post, actor);
    ToggleFlips(once, p, post, actor);
    var row := s.tables.posts[post];
    var other := row.(likeCount := row.likeCount + if HasLike(s.tables.likes, post, actor) then -1 else 1);
    BackAgain(s.tables.posts, post, row, other);
  }

  lemma BackAgain(posts: map<PostId, Post>, post: PostId, row: Post, other: Post)
    requires post in posts && posts[post] == row
    ensures posts[post := other][post := row] == posts
  {
  }

  lemma ToggleFlips(s: System, p: ProcessId, post: PostId, actor: ActorId)
    requires Inv(s) && post in s.tables.posts
    ensures var once := Run(s, [Read(p, post, actor), Commit(p)]);
            var had := HasLike(s.tables.likes, post, actor);
            && Inv(once) && post in once.tables.posts
            && HasLike(once.tables.likes, post, actor) == !had
            && var row := s.tables.posts[post];
               once.tables.posts == s.tables.posts[post := row.(likeCount := row.likeCount + if had then -1 else 1)]
  {
    var reading := Step(s, Read(p, post, actor));
    RunOfTwo(s, Read(p, post, actor), Commit(p));
    StepKeeps(s, Read(p, post, actor));
    StepKeeps(reading, Commit(p));
    match PhaseRead(s.tables.likes, post, actor)
    case SawLike(id, _) => UnlikeFlips(s.tables, id, post, actor);
    case SawNone(_, _) => LikeFlips(s.tables, post, actor);
  }

  lemma UnlikeFlips(db: Tables, id: LikeId, post: PostId, actor: ActorId)
    requires Consistent(db) && post in db.posts && id in db.likes && db.likes[id] == Like(post, actor)
    ensures var after := Transaction(db, StatementsOf(SawLike(id, post)));
            var row := db.posts[post];
            && !HasLike(after.likes, post, actor)
            && after.posts == db.posts[post := row.(likeCount := row.likeCount - 1)]
  {
    TransactionOf(db, DeleteLike(id), AddToCount(post, -1));
  }

  lemma LikeFlips(db: Tables, post: PostId, actor: ActorId)
    requires Consistent(db) && post in db.posts && !HasLike(db.likes, post, actor)
    ensures var after := Transaction(db, StatementsOf(SawNone(post, actor)));
            var row := db.posts[post];
            && HasLike(after.likes, post, actor)
            && after.posts == db.posts[post := row.(likeCount := row.likeCount + 1)]
  {
    TransactionOf(db, InsertLike(post, actor), AddToCount(post, 1));
    assert db.likes[db.nextId := Like(post, actor)][db.nextId] == Like(post, actor);
  }

  lemma RunOfTwo(s: System, a: Event, b: Event)
    ensures Run(s, [a, b]) == Step(Step(s, a), b)
  {
    assert [a, b][..1] == [a] && [a][..0] == [];
    assert Run(s, [a]) == Step(s, a);
  }

  // ---------------------------------------------------------------- the services

  class FeedStore {
    var posts: map<PostId, Post>
    var likes: map<LikeId, Like>
    var nextId: LikeId

    constructor ()
      ensures State() == EMPTY.tables
    {
      posts, likes, nextId := map[], map[], 0;
    }

    function State(): Tables
      reads this
    {
      Tables(posts, likes, nextId)
    }

    /** The read phase of a toggle. */
    method ReadExisting(post: PostId, actor: ActorId) returns (phase: Phase)
      requires Consistent(State())
      ensures phase == PhaseRead(likes, post, actor)
    {
      phase := SawNone(post, actor);
      var unread := likes.Keys;
      while unread != {}
        invariant unread <= likes.Keys
        invariant phase == SawNone(post, actor)
        invariant forall id :: id in likes && id !in unread ==> likes[id] != Like(post, actor)
        decreases |unread|
      {
        var id :| id in unread;
        if likes[id] == Like(post, actor) {
          return SawLike(id, post);
        }
        unread := unread - {id};
      }
    }

    /** Deletes the remembered row and decrements the counter, or does neither. */
    method UnlikeTransaction(id: LikeId, post: PostId) returns (ok: bool)
      requires Consistent(State()) && (id in likes ==> likes[id].post == post)
      modifies this
      ensures State() == Transaction(old(State()), StatementsOf(SawLike(id, post)))
      ensures ok <==> id in old(likes)
    {
      TransactionOf(State(), DeleteLike(id), AddToCount(post, -1));
      if id !in likes {
        return false;
      }
      likes := likes - {id};
      posts := posts[post := posts[post].(likeCount := posts[post].likeCount - 1)];
      return true;
    }

    /** Inserts a like and increments the counter, or does neither. */
    method LikeTransaction(post: PostId, actor: ActorId) returns (ok: bool)
      modifies this
      ensures State() == Transaction(old(State()), StatementsOf(SawNone(post, actor)))
      ensures ok <==> post in old(posts) && !HasLike(old(likes), post, actor)
    {
      TransactionOf(State(), InsertLike(post, actor), AddToCount(post, 1));
      if post !in posts || HasLike(likes, post, actor) {
        return false;
      }
      likes, nextId := likes[nextId := Like(post, actor)], nextId + 1;
      posts := posts[post := posts[post].(likeCount := posts[post].likeCount + 1)];
      return true;
    }

    /** Deletes posts with their likes: by hand, or by the timed purge. */
    method DeletePosts(dead: set<PostId>)
      modifies this
      ensures State() == WithoutPosts(old(State()), dead)
      ensures posts == old(posts) - dead && nextId == old(nextId)
      ensures forall id :: id in likes <==> id in old(likes) && old(likes)[id].post !in dead
      ensures forall id :: id in likes ==> likes[id] == old(likes)[id]
    {
      posts := posts - dead;
      likes := map id | id in likes && likes[id].post !in dead :: likes[id];
    }

    method PurgeExpired(now: int) returns (count: nat)
      modifies this
      ensures State() == WithoutPosts(old(State()), Expired(old(State()), now))
      ensures count == |Expired(old(State()), now)| && count + |posts| == |old(posts)|
      ensures forall p :: p in posts <==>
                p in old(posts) && (old(posts)[p].expiresAt == None || now <= old(posts)[p].expiresAt.value)
      ensures forall p :: p in posts ==> posts[p] == old(posts)[p]
    {
      var dead := Expired(State(), now);
      count := |dead|;
      DeletePosts(dead);
    }

    /** Deletes one post of a tenant; refused when the tenant has no such post. */
    method DeletePost(post: PostId, tenant: string) returns (ok: bool)
      modifies this
      ensures ok <==> post in old(posts) && old(posts)[post].tenant == tenant
      ensures State() == if ok then WithoutPosts(old(State()), {post}) else old(State())
    {
      if post !in posts || posts[post].tenant != tenant {
        return false;
      }
      DeletePosts({post});
      return true;
    }

    /**
     * An uninterrupted toggle; no count where the post is not found. A caller
     * without an actor key only reads, and one who is not logged in can like
     * only what is publicly live.
     */
    method ToggleFeedLike(post: PostId, actor: Option<ActorId>, loggedIn: bool, live: bool)
      returns (liked: bool, likeCount: Option<int>)
      requires Consistent(State())
      modifies this
      ensures Consistent(State())
      ensures actor.None? ==>
                State() == old(State()) && !liked && (likeCount.Some? <==> post in posts)
      ensures actor.Some? && !HasLike(old(likes), post, actor.value) && !loggedIn && !live ==>
                State() == old(State()) && !liked && likeCount.None?
      ensures actor.Some? && (HasLike(old(likes), post, actor.value) || loggedIn || live) ==>
                && State() == Transaction(old(State()), StatementsOf(PhaseRead(old(likes), post, actor.value)))
                && (likeCount.Some? <==> post in old(posts))
                && (likeCount.Some? ==>
                      liked == !HasLike(old(likes), post, actor.value) && liked == HasLike(likes, post, actor.value))
      ensures likeCount.Some? ==> likeCount.value == |LikesOf(likes, post)|
    {
      if actor.None? {
        return false, if post in posts then Some(posts[post].likeCount) else None;
      }
      var phase := ReadExisting(post, actor.value);
      match phase {
        case SawLike(id, p) =>
          UnlikeKeeps(State(), id, post);
          var done := UnlikeTransaction(id, post);
          liked := false;
        case SawNone(p, a) =>
          if !loggedIn && !live {
            return false, None;
          }
          LikeKeeps(State(), post, actor.value);
          ghost var id := nextId;
          var done := LikeTransaction(post, actor.value);
          assert done ==> likes[id] == Like(post, actor.value);
          liked := true;
      }
      likeCount := if post in posts then Some(posts[post].likeCount) else None;
    }
  }
}
