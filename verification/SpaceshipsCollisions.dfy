/** Bullets that hit something: who is despawned, who is told, and what it does to the scores. */
module SpaceshipsCollisions {
  import opened Options
  import opened Sequences

  type Entity = nat

  type ClientId = nat

  /** `look` stands for the position and colour a hit message carries along. */
  datatype Bullet = Bullet(owner: ClientId, look: int, isPrespawned: bool, isPredicted: bool, isDeterministic: bool)

  datatype Hit = Hit(bulletOwner: ClientId, victim: Option<ClientId>, look: int)

  datatype World = World(bullets: map<Entity, Bullet>, players: map<Entity, ClientId>, isServer: bool, isP2P: bool)

  datatype Contact = Contact(collider1: Entity, collider2: Entity)

  // ----- One contact -----

  /** What is done about one side of a contact; everything but `NoBullet` and `Despawn` ends the contact there. */
  datatype Side = NoBullet | KeepPrespawn | Hide | OwnBullet | Despawn(hit: Hit)

  function SideOf(w: World, e: Entity, other: Entity): Side {
    if e !in w.bullets then NoBullet
    else
      var b := w.bullets[e];
      if !w.isServer && !w.isP2P && b.isPrespawned then KeepPrespawn
      else if !w.isServer && !(b.isPredicted || b.isDeterministic) then Hide
      else if other in w.players && b.owner == w.players[other] then OwnBullet
      else Despawn(Hit(b.owner, if other in w.players then Some(w.players[other]) else None, b.look))
  }

  predicate Continues(side: Side) {
    side.KeepPrespawn? || side.Hide? || side.OwnBullet?
  }

  function HitOf(side: Side): seq<Hit> {
    if side.Despawn? then [side.hit] else []
  }

  /** The messages of a contact, given what is done about its two sides. */
  function Told(first: Side, second: Side): seq<Hit> {
    if Continues(first) then [] else HitOf(first) + HitOf(second)
  }

  function Gone(first: Side, second: Side, e: Entity, other: Entity): set<Entity> {
    if Continues(first) then {} else (if first.Despawn? then {e} else {}) + if second.Despawn? then {other} else {}
  }

  function ContactHits(w: World, c: Contact): seq<Hit> {
    Told(SideOf(w, c.collider1, c.collider2), SideOf(w, c.collider2, c.collider1))
  }

  function ContactDespawns(w: World, c: Contact): set<Entity> {
    Gone(SideOf(w, c.collider1, c.collider2), SideOf(w, c.collider2, c.collider1), c.collider1, c.collider2)
  }

  // ----- All contacts -----

  function Hits(w: World, contacts: seq<Contact>): seq<Hit> {
    if contacts == [] then []
    else Hits(w, contacts[..|contacts| - 1]) + ContactHits(w, contacts[|contacts| - 1])
  }

  function Despawns(w: World, contacts: seq<Contact>): set<Entity> {
    set c, e | c in contacts && e in ContactDespawns(w, c) :: e
  }

  /** The system: despawns are deferred, messages are written as they come. */
  method ProcessCollisions(w: World, contacts: seq<Contact>) returns (despawned: set<Entity>, hits: seq<Hit>)
    ensures despawned == Despawns(w, contacts)
    ensures hits == Hits(w, contacts)
  {
    despawned, hits := {}, [];
    for n := 0 to |contacts|
      invariant despawned == Despawns(w, contacts[..n])
      invariant hits == Hits(w, contacts[..n])
    {
      assert contacts[..n + 1] == contacts[..n] + [contacts[n]];
      assert contacts[..n + 1][..n] == contacts[..n];
      DespawnsStep(w, contacts[..n], contacts[n]);
      var gone, told := ProcessContact(w, contacts[n]);
      despawned := despawned + gone;
      hits := hits + told;
    }
    assert contacts[..|contacts|] == contacts;
  }

  /** The body of the loop: the first collider as the bullet, then the second one. */
  method ProcessContact(w: World, c: Contact) returns (despawned: set<Entity>, hits: seq<Hit>)
    ensures despawned == ContactDespawns(w, c)
    ensures hits == ContactHits(w, c)
  {
    despawned, hits := {}, [];
    var first := SideOf(w, c.collider1, c.collider2);
    if Continues(first) {
      return;
    }
    if first.Despawn? {
      despawned := despawned + {c.collider1};
      hits := hits + [first.hit];
    }
    var second := SideOf(w, c.collider2, c.collider1);
    if second.Despawn? {
      despawned := despawned + {c.collider2};
      hits := hits + [second.hit];
    }
  }

  lemma DespawnsStep(w: World, contacts: seq<Contact>, c: Contact)
    ensures Despawns(w, contacts + [c]) == Despawns(w, contacts) + ContactDespawns(w, c)
  {
  }

  // ----- Orientation and order -----

  /** The server, or a P2P peer, whose bullets are all deterministic; no entity is both a bullet and a player. */
  predicate Authoritative(w: World) {
    && (w.isServer || (w.isP2P && forall e :: e in w.bullets ==> w.bullets[e].isDeterministic))
    && w.bullets.Keys !! w.players.Keys
  }

  function Flip(c: Contact): Contact {
    Contact(c.collider2, c.collider1)
  }

  /** Only a player's own bullet ends a contact early, and then the other side is that player. */
  lemma OnlyOwnBulletsContinue(w: World, e: Entity, other: Entity)
    requires Authoritative(w)
    ensures Continues(SideOf(w, e, other)) ==> SideOf(w, other, e).NoBullet?
  {
  }

  /** One side ends the contact early, and the other is a bullet to despawn: which collider comes first decides
      whether it is. */
  predicate OneSided(first: Side, second: Side) {
    (Continues(first) && second.Despawn?) || (Continues(second) && first.Despawn?)
  }

  /** It does not matter which way round the contact is reported. */
  predicate EvenHanded(w: World, c: Contact) {
    !OneSided(SideOf(w, c.collider1, c.collider2), SideOf(w, c.collider2, c.collider1))
  }

  /** In any application, client, server or peer: a contact reported as "A with B" or as "B with A" has the same effects
      if and only if it is not the case that one side ends it early and the other is despawned. */
  lemma FlipIsHarmlessIff(w: World, c: Contact)
    ensures multiset(ContactHits(w, c)) == multiset(ContactHits(w, Flip(c))) <==> EvenHanded(w, c)
    ensures ContactDespawns(w, c) == ContactDespawns(w, Flip(c)) <==> EvenHanded(w, c)
  {
    var first, second := SideOf(w, c.collider1, c.collider2), SideOf(w, c.collider2, c.collider1);
    if OneSided(first, second) {
      OneSidedDiffers(first, second, c.collider1, c.collider2);
    } else {
      SidesCommute(first, second, c.collider1, c.collider2);
    }
  }

  /** On the server and in P2P that is always so. */
  lemma FlipIsHarmless(w: World, c: Contact)
    requires Authoritative(w)
    ensures EvenHanded(w, c)
    ensures multiset(ContactHits(w, c)) == multiset(ContactHits(w, Flip(c)))
    ensures ContactDespawns(w, c) == ContactDespawns(w, Flip(c))
  {
    OnlyOwnBulletsContinue(w, c.collider1, c.collider2);
    OnlyOwnBulletsContinue(w, c.collider2, c.collider1);
    FlipIsHarmlessIff(w, c);
  }

  lemma SidesCommute(first: Side, second: Side, e: Entity, other: Entity)
    requires !OneSided(first, second)
    ensures multiset(Told(first, second)) == multiset(Told(second, first))
    ensures Gone(first, second, e, other) == Gone(second, first, other, e)
  {
    if !Continues(first) && !Continues(second) {
      MultisetCommutes(HitOf(first), HitOf(second));
    }
  }

  lemma OneSidedDiffers(first: Side, second: Side, e: Entity, other: Entity)
    requires OneSided(first, second)
    ensures multiset(Told(first, second)) != multiset(Told(second, first))
    ensures Gone(first, second, e, other) != Gone(second, first, other, e)
  {
    var hit := if Continues(first) then second.hit else first.hit;
    assert Told(first, second) == (if Continues(first) then [] else [hit]);
    assert Told(second, first) == (if Continues(first) then [hit] else []);
    assert multiset([hit])[hit] == 1;
  }

  /** On a client it is not: an unconfirmed prespawned bullet meets a predicted one of another player, and only if the
      predicted one is named first is there a hit. */
  lemma ClientFlipExample()
    ensures var w := World(map[1 := Bullet(7, 0, true, false, false), 2 := Bullet(8, 0, false, true, false)], map[],
                           false, false);
            && ContactHits(w, Contact(1, 2)) == [] && ContactDespawns(w, Contact(1, 2)) == {}
            && ContactHits(w, Contact(2, 1)) == [Hit(8, None, 0)] && ContactDespawns(w, Contact(2, 1)) == {2}
  {
  }

  lemma MultisetCommutes<T>(a: seq<T>, b: seq<T>)
    ensures multiset(a + b) == multiset(b + a)
  {
  }

  /** The smaller entity first. */
  function Normal(c: Contact): Contact {
    if c.collider1 <= c.collider2 then c else Flip(c)
  }

  function Normals(contacts: seq<Contact>): seq<Contact> {
    seq(|contacts|, i requires 0 <= i < |contacts| => Normal(contacts[i]))
  }

  function HitCount(w: World, c: Contact, h: Hit): nat {
    multiset(ContactHits(w, c))[h]
  }

  function CountIn(w: World, h: Hit): Contact -> int {
    (c: Contact) => HitCount(w, c, h)
  }

  lemma HitsStep(w: World, contacts: seq<Contact>, h: Hit)
    requires contacts != []
    ensures var n := |contacts| - 1;
            multiset(Hits(w, contacts))[h] == multiset(Hits(w, contacts[..n]))[h] + HitCount(w, contacts[n], h)
  {
    var n := |contacts| - 1;
    assert Hits(w, contacts) == Hits(w, contacts[..n]) + ContactHits(w, contacts[n]);
  }

  lemma {:induction false} HitsCount(w: World, contacts: seq<Contact>, h: Hit)
    ensures multiset(Hits(w, contacts))[h] == Sum(CountIn(w, h), contacts)
  {
    if contacts != [] {
      var n := |contacts| - 1;
      HitsCount(w, contacts[..n], h);
      HitsStep(w, contacts, h);
      SumAppend(CountIn(w, h), contacts, n);
      assert contacts[..n + 1] == contacts;
    }
  }

  lemma NormalCount(w: World, c: Contact, h: Hit)
    requires EvenHanded(w, c)
    ensures HitCount(w, c, h) == HitCount(w, Normal(c), h)
  {
    FlipIsHarmlessIff(w, c);
  }

  lemma {:induction false} NormalsCount(w: World, contacts: seq<Contact>, h: Hit)
    requires forall c :: c in contacts ==> EvenHanded(w, c)
    ensures Sum(CountIn(w, h), contacts) == Sum(CountIn(w, h), Normals(contacts))
  {
    if contacts != [] {
      NormalsCount(w, contacts[1..], h);
      assert Normals(contacts)[1..] == Normals(contacts[1..]);
      NormalCount(w, contacts[0], h);
    }
  }

  lemma NormalsDespawn(w: World, contacts: seq<Contact>)
    requires forall c :: c in contacts ==> EvenHanded(w, c)
    ensures Despawns(w, contacts) == set c, e | c in multiset(Normals(contacts)) && e in ContactDespawns(w, c) :: e
  {
    forall i | 0 <= i < |contacts|
      ensures Normals(contacts)[i] in Normals(contacts)
      ensures ContactDespawns(w, contacts[i]) == ContactDespawns(w, Normals(contacts)[i])
    {
      assert contacts[i] in contacts;
      FlipIsHarmlessIff(w, contacts[i]);
    }
  }

  /** In any application the order in which contacts are listed makes no difference. */
  lemma OrderIsHarmless(w: World, a: seq<Contact>, b: seq<Contact>)
    requires multiset(a) == multiset(b)
    ensures Despawns(w, a) == Despawns(w, b)
    ensures multiset(Hits(w, a)) == multiset(Hits(w, b))
  {
    SameMembers(a, b);
    forall h ensures multiset(Hits(w, a))[h] == multiset(Hits(w, b))[h] {
      HitsCount(w, a, h);
      HitsCount(w, b, h);
      SumPermutes(CountIn(w, h), a, b);
    }
  }

  lemma SameMembers<T>(a: seq<T>, b: seq<T>)
    requires multiset(a) == multiset(b)
    ensures forall x :: x in a <==> x in b
  {
    forall x ensures x in a <==> x in b {
      assert x in multiset(a) <==> x in multiset(b);
    }
  }

  /** Nor does the orientation, as long as all contacts are even-handed. */
  lemma EvenHandedIsHarmless(w: World, a: seq<Contact>, b: seq<Contact>)
    requires forall c :: c in a ==> EvenHanded(w, c)
    requires forall c :: c in b ==> EvenHanded(w, c)
    requires multiset(Normals(a)) == multiset(Normals(b))
    ensures Despawns(w, a) == Despawns(w, b)
    ensures multiset(Hits(w, a)) == multiset(Hits(w, b))
  {
    NormalsDespawn(w, a);
    NormalsDespawn(w, b);
    forall h ensures multiset(Hits(w, a))[h] == multiset(Hits(w, b))[h] {
      HitsCount(w, a, h);
      HitsCount(w, b, h);
      NormalsCount(w, a, h);
      NormalsCount(w, b, h);
      SumPermutes(CountIn(w, h), Normals(a), Normals(b));
    }
  }

  /** On the server and in P2P the despawned bullets and the multiset of hit messages only depend on which pairs are in
      contact: not on the order in which the contacts are listed, nor on which collider comes first. */
  lemma ContactOrderIsHarmless(w: World, a: seq<Contact>, b: seq<Contact>)
    requires Authoritative(w)
    requires multiset(Normals(a)) == multiset(Normals(b))
    ensures Despawns(w, a) == Despawns(w, b)
    ensures multiset(Hits(w, a)) == multiset(Hits(w, b))
  {
    forall c | c in a || c in b ensures EvenHanded(w, c) {
      FlipIsHarmless(w, c);
    }
    EvenHandedIsHarmless(w, a, b);
  }

  // ----- What the messages mean -----

  /** The two entities are reported in contact, either way round. */
  predicate Touching(contacts: seq<Contact>, e: Entity, other: Entity) {
    Contact(e, other) in contacts || Contact(other, e) in contacts
  }

  /** A bullet strikes anything it touches but the ship that fired it. */
  predicate Strikes(w: World, contacts: seq<Contact>, e: Entity, other: Entity) {
    && e in w.bullets && Touching(contacts, e, other)
    && !(other in w.players && w.players[other] == w.bullets[e].owner)
  }

  function HitBy(w: World, e: Entity, other: Entity): Hit
    requires e in w.bullets
  {
    Hit(w.bullets[e].owner, if other in w.players then Some(w.players[other]) else None, w.bullets[e].look)
  }

  lemma ContactMeaning(w: World, c: Contact, h: Hit)
    requires Authoritative(w)
    ensures h in ContactHits(w, c) <==>
      || (Strikes(w, [c], c.collider1, c.collider2) && h == HitBy(w, c.collider1, c.collider2))
      || (Strikes(w, [c], c.collider2, c.collider1) && h == HitBy(w, c.collider2, c.collider1))
  {
    OnlyOwnBulletsContinue(w, c.collider1, c.collider2);
    assert c in [c];
    var a, b := HitOf(SideOf(w, c.collider1, c.collider2)), HitOf(SideOf(w, c.collider2, c.collider1));
    assert h in a + b <==> h in a || h in b;
  }

  lemma {:induction false} HitsAreContactHits(w: World, contacts: seq<Contact>, h: Hit)
    ensures h in Hits(w, contacts) <==> exists c :: c in contacts && h in ContactHits(w, c)
  {
    if contacts != [] {
      var n := |contacts| - 1;
      HitsAreContactHits(w, contacts[..n], h);
      assert contacts == contacts[..n] + [contacts[n]];
    }
  }

  /** There is a hit message exactly for what some bullet strikes: it names the owner of the bullet and, if that is a
      player, its victim. */
  lemma HitsMeaning(w: World, contacts: seq<Contact>, h: Hit)
    requires Authoritative(w)
    ensures h in Hits(w, contacts) <==> exists e, other :: Strikes(w, contacts, e, other) && h == HitBy(w, e, other)
  {
    HitsAreContactHits(w, contacts, h);
    if h in Hits(w, contacts) {
      var c :| c in contacts && h in ContactHits(w, c);
      ContactMeaning(w, c, h);
      assert Strikes(w, contacts, c.collider1, c.collider2) || Strikes(w, contacts, c.collider2, c.collider1);
    }
    if e, other :| Strikes(w, contacts, e, other) && h == HitBy(w, e, other) {
      var c := if Contact(e, other) in contacts then Contact(e, other) else Contact(other, e);
      assert c in [c];
      ContactMeaning(w, c, h);
    }
  }

  lemma ContactDespawnsMeaning(w: World, c: Contact, e: Entity)
    requires Authoritative(w)
    ensures e in ContactDespawns(w, c) <==>
      (e == c.collider1 && Strikes(w, [c], e, c.collider2)) || (e == c.collider2 && Strikes(w, [c], e, c.collider1))
  {
    OnlyOwnBulletsContinue(w, c.collider1, c.collider2);
    assert c in [c];
  }

  /** A bullet is despawned exactly when it strikes something. */
  lemma DespawnsMeaning(w: World, contacts: seq<Contact>, e: Entity)
    requires Authoritative(w)
    ensures e in Despawns(w, contacts) <==> exists other :: Strikes(w, contacts, e, other)
  {
    if e in Despawns(w, contacts) {
      var c :| c in contacts && e in ContactDespawns(w, c);
      ContactDespawnsMeaning(w, c, e);
      assert Strikes(w, contacts, e, c.collider1) || Strikes(w, contacts, e, c.collider2);
    }
    if other :| Strikes(w, contacts, e, other) {
      var c := if Contact(e, other) in contacts then Contact(e, other) else Contact(other, e);
      assert c in [c];
      ContactDespawnsMeaning(w, c, e);
      assert c in contacts && e in ContactDespawns(w, c);
    }
  }

  // ----- Scores -----

  datatype Row = Row(id: ClientId, score: int)

  /** What one hit message does to the score of one player. */
  function Change(h: Hit, id: ClientId): int {
    if h.victim.None? then 0
    else (if h.victim.value == id then -1 else 0) + if h.bulletOwner == id then 1 else 0
  }

  function ChangeFor(id: ClientId): Hit -> int {
    (h: Hit) => Change(h, id)
  }

  class ScoreBoard {
    var rows: seq<Row>

    constructor (rows: seq<Row>)
      ensures this.rows == rows
    {
      this.rows := rows;
    }

    /** `handle_hit_event` on the server and `update_scores` in P2P. */
    method HandleHits(hits: seq<Hit>)
      modifies this
      ensures rows == Scored(old(rows), hits)
    {
      for n := 0 to |hits|
        invariant |rows| == |old(rows)|
        invariant forall i :: 0 <= i < |rows| ==>
          rows[i] == Row(old(rows)[i].id, old(rows)[i].score + Sum(ChangeFor(old(rows)[i].id), hits[..n]))
      {
        ghost var before := rows;
        HandleHit(hits[n]);
        forall i | 0 <= i < |rows|
          ensures rows[i] == Row(old(rows)[i].id, old(rows)[i].score + Sum(ChangeFor(old(rows)[i].id), hits[..n + 1]))
        {
          SumAppend(ChangeFor(old(rows)[i].id), hits, n);
        }
      }
      assert hits[..|hits|] == hits;
    }

    /** The inner loop, over all players, for one message. */
    method HandleHit(h: Hit)
      modifies this
      ensures |rows| == |old(rows)|
      ensures forall i :: 0 <= i < |rows| ==>
        rows[i] == Row(old(rows)[i].id, old(rows)[i].score + Change(h, old(rows)[i].id))
    {
      if h.victim.None? {
        return;
      }
      var victim := h.victim.value;
      for i := 0 to |rows|
        invariant |rows| == |old(rows)|
        invariant forall k :: i <= k < |rows| ==> rows[k] == old(rows)[k]
        invariant forall k :: 0 <= k < i ==>
          rows[k] == Row(old(rows)[k].id, old(rows)[k].score + Change(h, old(rows)[k].id))
      {
        var id, score := rows[i].id, rows[i].score;
        if id == victim {
          score := score - 1;
        }
        if id == h.bulletOwner {
          score := score + 1;
        }
        rows := rows[i := Row(id, score)];
      }
    }
  }

  lemma SumAppend<T>(f: T -> int, s: seq<T>, n: nat)
    requires n < |s|
    ensures Sum(f, s[..n + 1]) == Sum(f, s[..n]) + f(s[n])
  {
    assert s[..n + 1] == s[..n] + [s[n]];
    SumConcat(f, s[..n], [s[n]]);
    assert [s[n]][1..] == [];
  }

  /** The board after the messages, as a function. */
  function Scored(rows: seq<Row>, hits: seq<Hit>): seq<Row> {
    seq(|rows|, i requires 0 <= i < |rows| => Row(rows[i].id, rows[i].score + Sum(ChangeFor(rows[i].id), hits)))
  }

  /** How many players the client has hit. */
  function HitsMade(hits: seq<Hit>, id: ClientId): nat {
    if hits == [] then 0
    else (if hits[0].victim.Some? && hits[0].bulletOwner == id then 1 else 0) + HitsMade(hits[1..], id)
  }

  function HitsTaken(hits: seq<Hit>, id: ClientId): nat {
    if hits == [] then 0 else (if hits[0].victim == Some(id) then 1 else 0) + HitsTaken(hits[1..], id)
  }

  /** A score is the hits made on players less the hits taken. */
  lemma {:induction false} ScoreIsHitsMadeLessTaken(hits: seq<Hit>, id: ClientId)
    ensures Sum(ChangeFor(id), hits) == HitsMade(hits, id) - HitsTaken(hits, id)
  {
    if hits != [] {
      ScoreIsHitsMadeLessTaken(hits[1..], id);
    }
  }

  /** The final scores depend on neither the order nor the orientation of the contacts. */
  lemma ScoresIgnoreContactOrder(w: World, a: seq<Contact>, b: seq<Contact>, rows: seq<Row>)
    requires Authoritative(w)
    requires multiset(Normals(a)) == multiset(Normals(b))
    ensures Scored(rows, Hits(w, a)) == Scored(rows, Hits(w, b))
  {
    ContactOrderIsHarmless(w, a, b);
    forall i | 0 <= i < |rows| ensures Scored(rows, Hits(w, a))[i] == Scored(rows, Hits(w, b))[i] {
      SumPermutes(ChangeFor(rows[i].id), Hits(w, a), Hits(w, b));
    }
  }

  // ----- How many messages there are -----

  /** This application despawns the bullet when it hits: the server always, a peer or client what it predicts, a client
      not before a prespawned bullet is confirmed. */
  predicate MayDespawn(w: World, b: Bullet) {
    w.isServer || ((w.isP2P || !b.isPrespawned) && (b.isPredicted || b.isDeterministic))
  }

  /** The entity is a bullet that hits the other, which is not the ship that fired it. */
  predicate HitsOther(w: World, e: Entity, other: Entity) {
    && e in w.bullets && MayDespawn(w, w.bullets[e])
    && !(other in w.players && w.players[other] == w.bullets[e].owner)
  }

  /** A side of a contact that lands a hit: the second one only if the first one is no bullet or lands too. */
  predicate Lands(w: World, c: Contact, second: bool) {
    if second then HitsOther(w, c.collider2, c.collider1) && (c.collider1 in w.bullets ==> Lands(w, c, false))
    else HitsOther(w, c.collider1, c.collider2)
  }

  /** The sum of a weight over all sides that land, of all contacts; the weight is given the bullet and what it hits. */
  function Landings(w: World, contacts: seq<Contact>, weight: (Entity, Entity) -> int): int {
    if contacts == [] then 0
    else
      var c := contacts[|contacts| - 1];
      Landings(w, contacts[..|contacts| - 1], weight)
      + (if Lands(w, c, false) then weight(c.collider1, c.collider2) else 0)
      + (if Lands(w, c, true) then weight(c.collider2, c.collider1) else 0)
  }

  /** The weight of the message that the hit gives. */
  function MessageWeight(w: World, f: Hit -> int): (Entity, Entity) -> int {
    (e: Entity, other: Entity) => if e in w.bullets then f(HitBy(w, e, other)) else 0
  }

  lemma SidesLand(w: World, c: Contact)
    ensures SideOf(w, c.collider1, c.collider2).Despawn? <==> Lands(w, c, false)
    ensures !Continues(SideOf(w, c.collider1, c.collider2)) && SideOf(w, c.collider2, c.collider1).Despawn? <==>
            Lands(w, c, true)
    ensures Lands(w, c, false) ==>
      SideOf(w, c.collider1, c.collider2).hit == HitBy(w, c.collider1, c.collider2)
    ensures Lands(w, c, true) ==>
      SideOf(w, c.collider2, c.collider1).hit == HitBy(w, c.collider2, c.collider1)
  {
  }

  lemma ContactLandings(w: World, c: Contact, f: Hit -> int)
    ensures Sum(f, ContactHits(w, c))
         == (if Lands(w, c, false) then MessageWeight(w, f)(c.collider1, c.collider2) else 0)
            + (if Lands(w, c, true) then MessageWeight(w, f)(c.collider2, c.collider1) else 0)
  {
    SidesLand(w, c);
    var first, second := SideOf(w, c.collider1, c.collider2), SideOf(w, c.collider2, c.collider1);
    SumOfSide(f, first);
    SumOfSide(f, second);
    SumConcat(f, HitOf(first), HitOf(second));
  }

  lemma SumOfSide(f: Hit -> int, side: Side)
    ensures Sum(f, HitOf(side)) == if side.Despawn? then f(side.hit) else 0
  {
    if side.Despawn? {
      assert [side.hit][1..] == [];
    }
  }

  /** In any application there is one message for each side of each contact that lands, and no other: whatever is summed
      over the messages is summed over those. */
  lemma {:induction false} MessagesAreLandings(w: World, contacts: seq<Contact>, f: Hit -> int)
    ensures Sum(f, Hits(w, contacts)) == Landings(w, contacts, MessageWeight(w, f))
  {
    if contacts != [] {
      var n := |contacts| - 1;
      MessagesAreLandings(w, contacts[..n], f);
      ContactLandings(w, contacts[n], f);
      SumConcat(f, Hits(w, contacts[..n]), ContactHits(w, contacts[n]));
    }
  }

  lemma {:induction false} SumOfOnes<T>(s: seq<T>, one: T -> int)
    requires forall x :: one(x) == 1
    ensures Sum(one, s) == |s|
  {
    if s != [] {
      SumOfOnes(s[1..], one);
    }
  }

  lemma {:induction false} SumCounts<T>(s: seq<T>, h: T, indicator: T -> int)
    requires forall x :: indicator(x) == if x == h then 1 else 0
    ensures Sum(indicator, s) == multiset(s)[h]
  {
    if s != [] {
      SumCounts(s[1..], h, indicator);
      assert s == [s[0]] + s[1..];
    }
  }

  lemma {:induction false} SameLandings(w: World, contacts: seq<Contact>, a: (Entity, Entity) -> int,
                                        b: (Entity, Entity) -> int)
    requires forall e, other :: e in w.bullets ==> a(e, other) == b(e, other)
    ensures Landings(w, contacts, a) == Landings(w, contacts, b)
  {
    if contacts != [] {
      SameLandings(w, contacts[..|contacts| - 1], a, b);
    }
  }

  /** One for a bullet and what it hits that have the owner, look and victim of the message. */
  function Matches(w: World, h: Hit): (Entity, Entity) -> int {
    (e: Entity, other: Entity) =>
      if && e in w.bullets && w.bullets[e].owner == h.bulletOwner && w.bullets[e].look == h.look
         && (if other in w.players then h.victim == Some(w.players[other]) else h.victim.None?)
      then 1 else 0
  }

  /** How often a message is written: once for each side that lands with this owner, look and victim. In particular
      there are as many messages as sides that land. */
  lemma HitsExactly(w: World, contacts: seq<Contact>, h: Hit)
    ensures multiset(Hits(w, contacts))[h] == Landings(w, contacts, Matches(w, h))
    ensures |Hits(w, contacts)| == Landings(w, contacts, (e: Entity, other: Entity) => 1)
  {
    MessagesAreLandings(w, contacts, Indicator(h));
    SumCounts(Hits(w, contacts), h, Indicator(h));
    IndicatorMatches(w, h);
    SameLandings(w, contacts, MessageWeight(w, Indicator(h)), Matches(w, h));
    var one := (x: Hit) => 1;
    MessagesAreLandings(w, contacts, one);
    SumOfOnes(Hits(w, contacts), one);
    SameLandings(w, contacts, MessageWeight(w, one), (e: Entity, other: Entity) => 1);
  }

  function Indicator(h: Hit): Hit -> int {
    (x: Hit) => if x == h then 1 else 0
  }

  lemma IndicatorMatches(w: World, h: Hit)
    ensures forall e, other :: e in w.bullets ==> MessageWeight(w, Indicator(h))(e, other) == Matches(w, h)(e, other)
  {
    forall e, other | e in w.bullets
      ensures MessageWeight(w, Indicator(h))(e, other) == Matches(w, h)(e, other)
    {
      MatchesHit(w, h, e, other);
      assert MessageWeight(w, Indicator(h))(e, other) == Indicator(h)(HitBy(w, e, other));
    }
  }

  lemma MatchesHit(w: World, h: Hit, e: Entity, other: Entity)
    requires e in w.bullets
    ensures Matches(w, h)(e, other) == if HitBy(w, e, other) == h then 1 else 0
  {
  }

  /** A hit on a ship is a point for the owner of the bullet and one off for the player of the ship. */
  function Points(w: World, id: ClientId): (Entity, Entity) -> int {
    (e: Entity, other: Entity) =>
      if e in w.bullets && other in w.players
      then (if w.bullets[e].owner == id then 1 else 0) - (if w.players[other] == id then 1 else 0)
      else 0
  }

  /** What the contacts of a tick do to a score: the points of all sides that land. */
  lemma ScoreIsLandings(w: World, contacts: seq<Contact>, rows: seq<Row>, i: nat)
    requires i < |rows|
    ensures Scored(rows, Hits(w, contacts))[i]
         == Row(rows[i].id, rows[i].score + Landings(w, contacts, Points(w, rows[i].id)))
  {
    MessagesAreLandings(w, contacts, ChangeFor(rows[i].id));
    forall e, other | e in w.bullets
      ensures MessageWeight(w, ChangeFor(rows[i].id))(e, other) == Points(w, rows[i].id)(e, other)
    {
      assert MessageWeight(w, ChangeFor(rows[i].id))(e, other) == Change(HitBy(w, e, other), rows[i].id);
    }
    SameLandings(w, contacts, MessageWeight(w, ChangeFor(rows[i].id)), Points(w, rows[i].id));
  }

  /** On the server and in P2P a side lands exactly if it is a bullet and the other not the ship that fired it. */
  lemma LandsWhenAuthoritative(w: World, c: Contact)
    requires Authoritative(w)
    ensures Lands(w, c, false) <==>
            && c.collider1 in w.bullets
            && !(c.collider2 in w.players && w.players[c.collider2] == w.bullets[c.collider1].owner)
    ensures Lands(w, c, true) <==>
            && c.collider2 in w.bullets
            && !(c.collider1 in w.players && w.players[c.collider1] == w.bullets[c.collider2].owner)
  {
  }

  /** In any application a bullet is despawned exactly if a side with it lands. */
  lemma DespawnsAreLandings(w: World, contacts: seq<Contact>, e: Entity)
    ensures e in Despawns(w, contacts) <==>
      exists c :: c in contacts && ((c.collider1 == e && Lands(w, c, false)) || (c.collider2 == e && Lands(w, c, true)))
  {
    forall c ensures e in ContactDespawns(w, c) <==>
      (c.collider1 == e && Lands(w, c, false)) || (c.collider2 == e && Lands(w, c, true))
    {
      SidesLand(w, c);
    }
  }

  // ----- Conservation -----

  function Total(rows: seq<Row>): int {
    if rows == [] then 0 else rows[0].score + Total(rows[1..])
  }

  predicate Present(rows: seq<Row>, id: ClientId) {
    exists i :: 0 <= i < |rows| && rows[i].id == id
  }

  predicate UniqueIds(rows: seq<Row>) {
    forall i, j :: 0 <= i < j < |rows| ==> rows[i].id != rows[j].id
  }

  function ToInt(b: bool): int {
    if b then 1 else 0
  }

  /** What a message does to the sum of the scores on a board. */
  function TotalChange(rows: seq<Row>, h: Hit): int {
    if h.victim.None? then 0 else ToInt(Present(rows, h.bulletOwner)) - ToInt(Present(rows, h.victim.value))
  }

  function TotalChangeOn(rows: seq<Row>): Hit -> int {
    (h: Hit) => TotalChange(rows, h)
  }

  lemma PresentCons(rows: seq<Row>, id: ClientId)
    requires rows != []
    ensures Present(rows, id) <==> rows[0].id == id || Present(rows[1..], id)
  {
    if Present(rows[1..], id) {
      var i :| 0 <= i < |rows[1..]| && rows[1..][i].id == id;
      assert rows[i + 1].id == id;
    }
    if Present(rows, id) && rows[0].id != id {
      var i :| 0 <= i < |rows| && rows[i].id == id;
      assert rows[1..][i - 1].id == id;
    }
  }

  lemma FirstIsUnique(rows: seq<Row>)
    requires rows != [] && UniqueIds(rows)
    ensures !Present(rows[1..], rows[0].id) && UniqueIds(rows[1..])
  {
  }

  /** The change of the first player, and that of the others, make up the change of the whole board. */
  lemma TotalChangeCons(rows: seq<Row>, h: Hit)
    requires rows != [] && UniqueIds(rows)
    ensures TotalChange(rows, h) == Change(h, rows[0].id) + TotalChange(rows[1..], h)
  {
    FirstIsUnique(rows);
    PresentCons(rows, h.bulletOwner);
    if h.victim.Some? {
      PresentCons(rows, h.victim.value);
    }
  }

  lemma {:induction false} TotalChangesCons(rows: seq<Row>, hits: seq<Hit>)
    requires rows != [] && UniqueIds(rows)
    ensures Sum(TotalChangeOn(rows), hits) == Sum(ChangeFor(rows[0].id), hits) + Sum(TotalChangeOn(rows[1..]), hits)
    decreases |hits|
  {
    if hits != [] {
      TotalChangesCons(rows, hits[1..]);
      TotalChangeCons(rows, hits[0]);
    }
  }

  lemma {:induction false} NoRowsNoChange(hits: seq<Hit>)
    ensures Sum(TotalChangeOn([]), hits) == 0
  {
    if hits != [] {
      NoRowsNoChange(hits[1..]);
    }
  }

  /** Exactly what a list of messages does to the sum of all scores: one more for each known shooter of a victim,
      one less for each known victim. */
  lemma {:induction false} TotalAfter(rows: seq<Row>, hits: seq<Hit>)
    requires UniqueIds(rows)
    ensures Total(Scored(rows, hits)) == Total(rows) + Sum(TotalChangeOn(rows), hits)
    decreases |rows|
  {
    if rows == [] {
      NoRowsNoChange(hits);
    } else {
      FirstIsUnique(rows);
      TotalAfter(rows[1..], hits);
      assert Scored(rows, hits)[1..] == Scored(rows[1..], hits);
      TotalChangesCons(rows, hits);
    }
  }

  /** The board lists the players of the world, each once, and the owners of all bullets are still there. */
  ghost predicate Roster(w: World, rows: seq<Row>) {
    && UniqueIds(rows)
    && (forall e :: e in w.players ==> Present(rows, w.players[e]))
    && (forall e :: e in w.bullets ==> Present(rows, w.bullets[e].owner))
  }

  lemma {:induction false} HitsAreBalanced(w: World, contacts: seq<Contact>, rows: seq<Row>)
    requires Roster(w, rows)
    ensures forall h :: h in Hits(w, contacts) ==> TotalChange(rows, h) == 0
  {
    if contacts != [] {
      HitsAreBalanced(w, contacts[..|contacts| - 1], rows);
    }
  }

  lemma {:induction false} SumOfZeros<T>(f: T -> int, s: seq<T>)
    requires forall x :: x in s ==> f(x) == 0
    ensures Sum(f, s) == 0
  {
    if s != [] {
      SumOfZeros(f, s[1..]);
    }
  }

  /** While the owners of the bullets are present, no list of contacts changes the sum of all scores. */
  lemma TotalIsConserved(w: World, contacts: seq<Contact>, rows: seq<Row>)
    requires Roster(w, rows)
    ensures Total(Scored(rows, Hits(w, contacts))) == Total(rows)
  {
    TotalAfter(rows, Hits(w, contacts));
    HitsAreBalanced(w, contacts, rows);
    SumOfZeros(TotalChangeOn(rows), Hits(w, contacts));
  }

  // ----- A P2P game -----

  /** The board after a game: for each tick its world and contacts. */
  function AfterGame(rows: seq<Row>, ticks: seq<(World, seq<Contact>)>): seq<Row> {
    if ticks == [] then rows
    else
      var n := |ticks| - 1;
      Scored(AfterGame(rows, ticks[..n]), Hits(ticks[n].0, ticks[n].1))
  }

  /** The points of a player over a game. */
  function GamePoints(ticks: seq<(World, seq<Contact>)>, id: ClientId): int {
    if ticks == [] then 0
    else
      var n := |ticks| - 1;
      GamePoints(ticks[..n], id) + Landings(ticks[n].0, ticks[n].1, Points(ticks[n].0, id))
  }

  /** After any game a score is what it was, and the points of all hits that landed at any tick. */
  lemma {:induction false} GameScoreIsLandings(rows: seq<Row>, ticks: seq<(World, seq<Contact>)>, i: nat)
    requires i < |rows|
    ensures |AfterGame(rows, ticks)| == |rows|
    ensures AfterGame(rows, ticks)[i] == Row(rows[i].id, rows[i].score + GamePoints(ticks, rows[i].id))
  {
    if ticks != [] {
      var n := |ticks| - 1;
      GameScoreIsLandings(rows, ticks[..n], i);
      ScoreIsLandings(ticks[n].0, ticks[n].1, AfterGame(rows, ticks[..n]), i);
    }
  }

  lemma SameIds(rows: seq<Row>, hits: seq<Hit>)
    ensures |Scored(rows, hits)| == |rows|
    ensures forall i :: 0 <= i < |rows| ==> Scored(rows, hits)[i].id == rows[i].id
  {
  }

  lemma RosterIsKept(w: World, rows: seq<Row>, rows': seq<Row>)
    requires |rows| == |rows'| && forall i :: 0 <= i < |rows| ==> rows[i].id == rows'[i].id
    requires Roster(w, rows)
    ensures Roster(w, rows')
  {
    forall id | Present(rows, id) ensures Present(rows', id) {
      var i :| 0 <= i < |rows| && rows[i].id == id;
      assert rows'[i].id == id;
    }
  }

  /** In a P2P game the roster is fixed and starts at zero: the scores always sum to zero. */
  lemma {:induction false} P2PScoresSumToZero(rows: seq<Row>, ticks: seq<(World, seq<Contact>)>)
    requires forall i :: 0 <= i < |rows| ==> rows[i].score == 0
    requires forall n :: 0 <= n < |ticks| ==> Roster(ticks[n].0, rows)
    ensures Total(AfterGame(rows, ticks)) == 0
    ensures |AfterGame(rows, ticks)| == |rows|
    ensures forall i :: 0 <= i < |rows| ==> AfterGame(rows, ticks)[i].id == rows[i].id
  {
    if ticks == [] {
      TotalOfZeros(rows);
    } else {
      var n := |ticks| - 1;
      P2PScoresSumToZero(rows, ticks[..n]);
      var before := AfterGame(rows, ticks[..n]);
      RosterIsKept(ticks[n].0, rows, before);
      TotalIsConserved(ticks[n].0, ticks[n].1, before);
      SameIds(before, Hits(ticks[n].0, ticks[n].1));
    }
  }

  lemma {:induction false} TotalOfZeros(rows: seq<Row>)
    requires forall i :: 0 <= i < |rows| ==> rows[i].score == 0
    ensures Total(rows) == 0
  {
    if rows != [] {
      TotalOfZeros(rows[1..]);
    }
  }
}
