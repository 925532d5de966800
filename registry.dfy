/** The point registry as `addPoints` fills it: a map from id to the marker
    mesh made for the record and the record itself, written one record at a
    time, so that a later record with the same id overwrites the entry. */
module Registry {
  import opened Points

  /** A registry entry: the marker mesh and the record it was made from. */
  datatype Entry<M> = Entry(mesh: M, data: PointData)

  /** The ids a point list mentions. */
  function Ids(ps: seq<PointData>): set<string>
  {
    set i | 0 <= i < |ps| :: ps[i].id
  }

  /** The position of the last record in `ps` carrying `id`. */
  function LastIndex(ps: seq<PointData>, id: string): (k: nat)
    requires id in Ids(ps)
    ensures k < |ps| && ps[k].id == id
    ensures forall j | k < j < |ps| :: ps[j].id != id
    decreases |ps|
  {
    var n := |ps| - 1;
    if ps[n].id == id then n
    else
      assert id in Ids(ps[..n]) by {
        var i :| 0 <= i < |ps| && ps[i].id == id;
        assert ps[..n][i] == ps[i];
      }
      LastIndex(ps[..n], id)
  }

  /** The registry after `pointMap.set(p.id, {mesh, data: p})` for each record
      `ps[i]` in order, `meshes[i]` being the mesh made for it. */
  function Registered<M>(m: map<string, Entry<M>>, ps: seq<PointData>, meshes: seq<M>): map<string, Entry<M>>
    requires |meshes| == |ps|
    decreases |ps|
  {
    if ps == [] then m
    else
      var n := |ps| - 1;
      Registered(m, ps[..n], meshes[..n])[ps[n].id := Entry(meshes[n], ps[n])]
  }

  /** Filing record `ps[i]` extends the fold over `ps[..i]` by one map update. */
  lemma RegisteredStep<M>(m: map<string, Entry<M>>, ps: seq<PointData>, meshes: seq<M>, i: nat, x: M)
    requires i < |ps| && |meshes| == i
    ensures Registered(m, ps[..i + 1], meshes + [x]) == Registered(m, ps[..i], meshes)[ps[i].id := Entry(x, ps[i])]
  {
    assert ps[..i + 1][..i] == ps[..i];
    assert (meshes + [x])[..i] == meshes;
  }

  /** The meshes the registry holds: the objects picking is offered. */
  function Meshes<M>(m: map<string, Entry<M>>): set<M>
  {
    set id | id in m :: m[id].mesh
  }

  /** `m` is the first element of `underRay` that is among `candidates`. */
  ghost predicate FirstAmong<M>(underRay: seq<M>, candidates: set<M>, m: M)
  {
    exists k | 0 <= k < |underRay| ::
      underRay[k] == m && m in candidates && forall j | 0 <= j < k :: underRay[j] !in candidates
  }

  /** The picking filter: of the objects a ray crosses, nearest first, the
      ones among `candidates`. */
  function Hits<M>(underRay: seq<M>, candidates: set<M>): (hits: seq<M>)
    ensures forall x | x in hits :: x in underRay && x in candidates
    ensures forall x | x in underRay && x in candidates :: x in hits
  {
    if underRay == [] then []
    else
      var rest := Hits(underRay[1..], candidates);
      assert forall x | x in underRay :: x == underRay[0] || x in underRay[1..];
      if underRay[0] in candidates then [underRay[0]] + rest else rest
  }

  /** The first hit is the first candidate the ray crosses, and there is no
      hit exactly when the ray crosses no candidate. */
  lemma {:induction false} NearestHit<M>(underRay: seq<M>, candidates: set<M>)
    ensures Hits(underRay, candidates) != [] ==> FirstAmong(underRay, candidates, Hits(underRay, candidates)[0])
    ensures Hits(underRay, candidates) == [] <==> forall k | 0 <= k < |underRay| :: underRay[k] !in candidates
  {
    if underRay != [] {
      var rest := Hits(underRay[1..], candidates);
      NearestHit(underRay[1..], candidates);
      assert forall k | 0 < k < |underRay| :: underRay[k] == underRay[1..][k - 1];
      if underRay[0] in candidates {
        assert FirstAmong(underRay, candidates, underRay[0]);
      } else if rest != [] {
        var k :| 0 <= k < |underRay[1..]| && underRay[1..][k] == rest[0] && rest[0] in candidates
          && forall j | 0 <= j < k :: underRay[1..][j] !in candidates;
        assert underRay[k + 1] == rest[0];
      }
    }
  }

  /** Every id of the list becomes a key, filed under its last record and that
      record's mesh; every other key keeps its previous entry. */
  lemma {:induction false} RegisteredAt<M>(m: map<string, Entry<M>>, ps: seq<PointData>, meshes: seq<M>, id: string)
    requires |meshes| == |ps|
    ensures id in Registered(m, ps, meshes) <==> id in m || id in Ids(ps)
    ensures id in Ids(ps) ==>
      Registered(m, ps, meshes)[id] == Entry(meshes[LastIndex(ps, id)], ps[LastIndex(ps, id)])
    ensures id !in Ids(ps) && id in m ==> Registered(m, ps, meshes)[id] == m[id]
    decreases |ps|
  {
    if ps != [] {
      var n := |ps| - 1;
      RegisteredAt(m, ps[..n], meshes[..n], id);
      assert Ids(ps) == Ids(ps[..n]) + {ps[n].id} by {
        forall x | x in Ids(ps) ensures x in Ids(ps[..n]) + {ps[n].id} {
          var i :| 0 <= i < |ps| && ps[i].id == x;
          if i < n { assert ps[..n][i] == ps[i]; }
        }
        forall x | x in Ids(ps[..n]) ensures x in Ids(ps) {
          var i :| 0 <= i < n && ps[..n][i].id == x;
          assert ps[i].id == x;
        }
      }
      if id in Ids(ps) && ps[n].id != id {
        assert id in Ids(ps[..n]);
        assert LastIndex(ps, id) == LastIndex(ps[..n], id);
      }
    }
  }

  /** Record `i` is overwritten when a later record has the same id. */
  predicate Overwritten(ps: seq<PointData>, i: nat)
  {
    exists j | i < j < |ps| :: ps[j].id == ps[i].id
  }

  /** A record that is not overwritten is filed under its id with its own mesh. */
  lemma SurvivorRegistered<M>(m: map<string, Entry<M>>, ps: seq<PointData>, meshes: seq<M>, i: nat)
    requires |meshes| == |ps| && i < |ps|
    requires !Overwritten(ps, i)
    ensures ps[i].id in Registered(m, ps, meshes)
    ensures Registered(m, ps, meshes)[ps[i].id] == Entry(meshes[i], ps[i])
  {
    assert ps[i].id in Ids(ps);
    RegisteredAt(m, ps, meshes, ps[i].id);
    assert LastIndex(ps, ps[i].id) == i;
  }

  /** The mesh of an overwritten record is in no registry entry, so picking
      never offers it: it stays in the scene but can never be selected. The
      meshes are distinct objects and none was registered before. */
  lemma OverwrittenNeverPicked<M>(m: map<string, Entry<M>>, ps: seq<PointData>, meshes: seq<M>, i: nat)
    requires |meshes| == |ps| && i < |ps|
    requires forall a, b | 0 <= a < b < |meshes| :: meshes[a] != meshes[b]
    requires forall id | id in m :: m[id].mesh != meshes[i]
    requires Overwritten(ps, i)
    ensures meshes[i] !in Meshes(Registered(m, ps, meshes))
  {
    var r := Registered(m, ps, meshes);
    forall id | id in r ensures r[id].mesh != meshes[i] {
      RegisteredAt(m, ps, meshes, id);
      if id in Ids(ps) {
        assert LastIndex(ps, id) != i;
      }
    }
  }
}
