/** The remote-store helpers of `utils/firebase.ts`. The `checklists` collection is a map from
    document id to document; whether the service answers a call is the oracle `reachable`.
    SDK initialisation is reduced to the `dbInitialized` flag. */
module Firestore {

  import opened Wrappers
  import opened Checklist

  /** The two configuration entries the backend switch reads; `None` stands for `undefined`. */
  datatype Config = Config(projectId: Option<string>, apiKey: Option<string>)

  /** A configuration value is truthy: present and not the empty string. */
  predicate IsSet(v: Option<string>) {
    v.Some? && v.value != ""
  }

  /** `isFirebaseConfigured`: both values are set and neither still holds a `<placeholder>`. */
  predicate IsFirebaseConfigured(cfg: Config): (ok: bool)
    ensures ok ==> cfg.projectId.Some? && cfg.apiKey.Some? && |cfg.projectId.value| > 0 && |cfg.apiKey.value| > 0
    ensures ok ==> forall i :: 0 <= i < |cfg.projectId.value| ==> cfg.projectId.value[i] != '<'
    ensures ok ==> forall i :: 0 <= i < |cfg.apiKey.value| ==> cfg.apiKey.value[i] != '<'
  {
    && IsSet(cfg.projectId) && IsSet(cfg.apiKey)
    && '<' !in cfg.projectId.value && '<' !in cfg.apiKey.value
  }

  lemma PlaceholderIsNotConfigured(key: string)
    ensures !IsFirebaseConfigured(Config(Some("<your-project-id>"), Some(key)))
    ensures !IsFirebaseConfigured(Config(Some(key), Some("<your-api-key>")))
    ensures !IsFirebaseConfigured(Config(None, Some(key))) && !IsFirebaseConfigured(Config(Some(""), Some(key)))
  {
    assert "<your-project-id>"[0] == '<';
    assert "<your-api-key>"[0] == '<';
  }

  /** The `checklists` collection, keyed by document id, and the module's `dbInitialized`. */
  datatype RemoteStore = RemoteStore(docs: map<string, VehicleChecklist>, initialized: bool)

  datatype RemoteError =
    | NotConfigured   // `new Error('Firebase not configured')`
    | Unavailable     // any rejection from the SDK or the network

  const NOT_CONFIGURED_MESSAGE: string := "Firebase not configured"

  /** `initFirebase`: initialises the SDK once; documents are untouched. */
  function InitFirebase(store: RemoteStore): (r: RemoteStore)
    ensures r.docs == store.docs && r.initialized
  {
    store.(initialized := true)
  }

  datatype Guard = Guard(ok: bool, store: RemoteStore)

  /** `ensureInit`: reports whether the configuration is usable and initialises only then. */
  function EnsureInit(cfg: Config, store: RemoteStore): (g: Guard)
    ensures g.ok == IsFirebaseConfigured(cfg)
    ensures g.store.docs == store.docs
    ensures g.store.initialized == (store.initialized || IsFirebaseConfigured(cfg))
  {
    if !IsFirebaseConfigured(cfg) then Guard(false, store) else Guard(true, InitFirebase(store))
  }

  /** What a helper leaves behind and what its promise settles to. */
  datatype Reply<T> = Reply(store: RemoteStore, result: Result<T, RemoteError>)

  /** `saveChecklistFirestore`: a full overwrite of the document `checklist.id`. */
  function SaveChecklistFirestore(cfg: Config, store: RemoteStore, checklist: VehicleChecklist, reachable: bool)
    : (r: Reply<()>)
    ensures !IsFirebaseConfigured(cfg) ==> r == Reply(store, Failure(NotConfigured))
    ensures r.result.Success? <==> IsFirebaseConfigured(cfg) && reachable
    ensures r.result.Success? ==> r.store.docs == store.docs[checklist.id := checklist]
    ensures r.result.Failure? ==> r.store.docs == store.docs
  {
    var g := EnsureInit(cfg, store);
    if !g.ok then Reply(g.store, Failure(NotConfigured))
    else if !reachable then Reply(g.store, Failure(Unavailable))
    else Reply(g.store.(docs := g.store.docs[checklist.id := checklist]), Success(()))
  }

  /** `loadChecklistFirestore`: the document with that id, or `null` when there is none. */
  function LoadChecklistFirestore(cfg: Config, store: RemoteStore, id: string, reachable: bool)
    : (r: Reply<Option<VehicleChecklist>>)
    ensures !IsFirebaseConfigured(cfg) ==> r == Reply(store, Failure(NotConfigured))
    ensures r.store.docs == store.docs
    ensures r.result.Success? <==> IsFirebaseConfigured(cfg) && reachable
    ensures r.result.Success? ==> (r.result.value.Some? <==> id in store.docs)
    ensures r.result.Success? && r.result.value.Some? ==> r.result.value.value == store.docs[id]
  {
    var g := EnsureInit(cfg, store);
    if !g.ok then Reply(g.store, Failure(NotConfigured))
    else if !reachable then Reply(g.store, Failure(Unavailable))
    else Reply(g.store, Success(if id in g.store.docs then Some(g.store.docs[id]) else None))
  }

  /** `deleteChecklistFirestore`: removes the document with that id and nothing else. */
  function DeleteChecklistFirestore(cfg: Config, store: RemoteStore, id: string, reachable: bool)
    : (r: Reply<()>)
    ensures !IsFirebaseConfigured(cfg) ==> r == Reply(store, Failure(NotConfigured))
    ensures r.result.Success? <==> IsFirebaseConfigured(cfg) && reachable
    ensures r.result.Success? ==> id !in r.store.docs
    ensures r.result.Success? ==> forall k :: k != id ==>
      (k in r.store.docs <==> k in store.docs) && (k in store.docs ==> r.store.docs[k] == store.docs[k])
    ensures r.result.Failure? ==> r.store.docs == store.docs
  {
    var g := EnsureInit(cfg, store);
    if !g.ok then Reply(g.store, Failure(NotConfigured))
    else if !reachable then Reply(g.store, Failure(Unavailable))
    else Reply(g.store.(docs := g.store.docs - {id}), Success(()))
  }

  /** The documents named by `order`, in that order, skipping names with no document. */
  function Listing(docs: map<string, VehicleChecklist>, order: seq<string>): (r: seq<VehicleChecklist>)
    ensures |r| <= |order|
    ensures forall i :: 0 <= i < |r| ==> r[i] in docs.Values
  {
    if order == [] then []
    else (if order[0] in docs then [docs[order[0]]] else []) + Listing(docs, order[1..])
  }

  /** `order` names every document of the collection exactly once: the service's enumeration. */
  predicate Enumerates(order: seq<string>, docs: map<string, VehicleChecklist>) {
    && (forall i :: 0 <= i < |order| ==> order[i] in docs)
    && (forall k :: k in docs ==> k in order)
    && (forall i, j :: 0 <= i < j < |order| ==> order[i] != order[j])
  }

  /** Listing a full enumeration yields one entry per document and misses none. */
  lemma {:induction false} ListingOfEnumeration(docs: map<string, VehicleChecklist>, order: seq<string>)
    requires forall i :: 0 <= i < |order| ==> order[i] in docs
    ensures |Listing(docs, order)| == |order|
    ensures forall k :: k in order ==> docs[k] in Listing(docs, order)
  {
    if order != [] {
      ListingOfEnumeration(docs, order[1..]);
      forall k | k in order ensures docs[k] in Listing(docs, order) {
        if k != order[0] {
          assert k in order[1..];
        }
      }
    }
  }

  /** `fetchAllChecklists`: every document of the collection, in the service's `order`. */
  function FetchAllChecklists(cfg: Config, store: RemoteStore, order: seq<string>, reachable: bool)
    : (r: Reply<seq<VehicleChecklist>>)
    ensures !IsFirebaseConfigured(cfg) ==> r == Reply(store, Failure(NotConfigured))
    ensures r.store.docs == store.docs
    ensures r.result.Success? <==> IsFirebaseConfigured(cfg) && reachable
    ensures r.result.Success? ==> forall i :: 0 <= i < |r.result.value| ==> r.result.value[i] in store.docs.Values
    ensures r.result.Success? && Enumerates(order, store.docs) ==>
      |r.result.value| == |order| && forall k :: k in store.docs ==> store.docs[k] in r.result.value
  {
    var g := EnsureInit(cfg, store);
    if !g.ok then Reply(g.store, Failure(NotConfigured))
    else if !reachable then Reply(g.store, Failure(Unavailable))
    else
      var listed := Listing(g.store.docs, order);
      assert Enumerates(order, store.docs) ==>
        |listed| == |order| && forall k :: k in store.docs ==> store.docs[k] in listed
      by {
        if Enumerates(order, store.docs) {
          ListingOfEnumeration(store.docs, order);
        }
      }
      Reply(g.store, Success(listed))
  }

  /** The collection after writing `cs` one after another, each `setDoc` overwriting. */
  function PutAll(docs: map<string, VehicleChecklist>, cs: seq<VehicleChecklist>): map<string, VehicleChecklist>
  {
    if cs == [] then docs
    else PutAll(docs, cs[..|cs| - 1])[cs[|cs| - 1].id := cs[|cs| - 1]]
  }

  /** Position of the last checklist with id `k`. */
  function LastWithId(cs: seq<VehicleChecklist>, k: string): (r: Option<nat>)
    ensures r.None? <==> forall i :: 0 <= i < |cs| ==> cs[i].id != k
    ensures r.Some? ==> r.value < |cs| && cs[r.value].id == k
    ensures r.Some? ==> forall j :: r.value < j < |cs| ==> cs[j].id != k
  {
    if cs == [] then None
    else if cs[|cs| - 1].id == k then Some(|cs| - 1)
    else LastWithId(cs[..|cs| - 1], k)
  }

  /** After a sequential upload, the document of each uploaded id is the LAST checklist with
      that id; every other document is as it was. */
  lemma {:induction false} PutAllLastWins(docs: map<string, VehicleChecklist>, cs: seq<VehicleChecklist>, k: string)
    ensures match LastWithId(cs, k)
      case Some(i) => k in PutAll(docs, cs) && PutAll(docs, cs)[k] == cs[i]
      case None => (k in PutAll(docs, cs) <==> k in docs) && (k in docs ==> PutAll(docs, cs)[k] == docs[k])
  {
    if cs != [] && cs[|cs| - 1].id != k {
      PutAllLastWins(docs, cs[..|cs| - 1], k);
    }
  }

  /** `uploadChecklists`: writes each checklist in input order, with no configuration check
      (it initialises the SDK whatever the configuration). Write `i` succeeds when
      `reachable(i)`; the first failing write rejects the whole call, and the writes before it
      stay applied. On success it reports `uploaded` = the number of checklists. */
  method UploadChecklists(store: RemoteStore, cs: seq<VehicleChecklist>, reachable: nat -> bool)
    returns (after: RemoteStore, written: nat, result: Result<nat, RemoteError>)
    ensures after.initialized
    ensures written <= |cs| && after.docs == PutAll(store.docs, cs[..written])
    ensures forall j :: 0 <= j < written ==> reachable(j)
    ensures result.Success? <==> written == |cs|
    ensures result.Success? ==> result.value == |cs|
    ensures result.Failure? ==> result.error == Unavailable && !reachable(written)
  {
    after := InitFirebase(store);
    written := 0;
    while written < |cs|
      invariant written <= |cs|
      invariant after.initialized
      invariant after.docs == PutAll(store.docs, cs[..written])
      invariant forall j :: 0 <= j < written ==> reachable(j)
    {
      if !reachable(written) {
        return after, written, Failure(Unavailable);
      }
      var c := cs[written];
      assert cs[..written + 1][..written] == cs[..written];
      after := after.(docs := after.docs[c.id := c]);
      written := written + 1;
    }
    assert cs[..written] == cs;
    result := Success(|cs|);
  }

  /** A write followed by a read of the same id returns what was written. */
  lemma SaveThenLoad(cfg: Config, store: RemoteStore, c: VehicleChecklist, reachable: bool)
    requires SaveChecklistFirestore(cfg, store, c, reachable).result.Success?
    ensures LoadChecklistFirestore(cfg, SaveChecklistFirestore(cfg, store, c, reachable).store, c.id, true).result
         == Success(Some(c))
  {
  }

  /** After a delete, a read of that id finds nothing. */
  lemma DeleteThenLoad(cfg: Config, store: RemoteStore, id: string, reachable: bool)
    requires DeleteChecklistFirestore(cfg, store, id, reachable).result.Success?
    ensures LoadChecklistFirestore(cfg, DeleteChecklistFirestore(cfg, store, id, reachable).store, id, true).result
         == Success(None)
  {
  }

  /** Every document is stored under its own id, as all writers of the collection ensure. */
  predicate KeyedById(docs: map<string, VehicleChecklist>) {
    forall k :: k in docs ==> docs[k].id == k
  }

  /** A save keeps every document under its own id. */
  lemma SaveKeepsKeyedById(cfg: Config, store: RemoteStore, c: VehicleChecklist, reachable: bool)
    requires KeyedById(store.docs)
    ensures KeyedById(SaveChecklistFirestore(cfg, store, c, reachable).store.docs)
  {
  }

  /** So does a delete. */
  lemma DeleteKeepsKeyedById(cfg: Config, store: RemoteStore, id: string, reachable: bool)
    requires KeyedById(store.docs)
    ensures KeyedById(DeleteChecklistFirestore(cfg, store, id, reachable).store.docs)
  {
  }

  /** So does a sequential upload. */
  lemma {:induction false} PutAllKeepsKeyedById(docs: map<string, VehicleChecklist>, cs: seq<VehicleChecklist>)
    requires KeyedById(docs)
    ensures KeyedById(PutAll(docs, cs))
  {
    if cs != [] {
      PutAllKeepsKeyedById(docs, cs[..|cs| - 1]);
    }
  }

  /** In a collection keyed by id, no listed record carries an id that has no document. */
  lemma ListingOfKeyed(docs: map<string, VehicleChecklist>, order: seq<string>, id: string)
    requires KeyedById(docs) && id !in docs
    ensures forall i :: 0 <= i < |Listing(docs, order)| ==> Listing(docs, order)[i].id != id
  {
    var l := Listing(docs, order);
    forall i | 0 <= i < |l| ensures l[i].id != id {
      assert l[i] in docs.Values;
      var k :| k in docs && docs[k] == l[i];
    }
  }
}
