/** The checklist repository of `hooks/useChecklistStorage.ts`: four operations that go to the
    remote store when it is configured and to one local key-value blob otherwise. The
    configuration is re-read on every call; the two stores are never combined. */
module Storage {

  import opened Wrappers
  import opened Checklist
  import opened Seqs
  import opened Firestore
  import Images

  /** The single key the local blob lives under. */
  const STORAGE_KEY: string := "@checklistfleet:checklists"

  /** What `getItem` followed by `JSON.parse` finds under the key. Serialisation is taken to
      round-trip exactly. */
  datatype LocalBlob =
    | Missing                                    // no item, or an empty string
    | Stored(checklists: seq<VehicleChecklist>)  // a JSON array of checklists
    | Unreadable                                 // `getItem` rejected or the text did not parse

  /** Both stores and the configuration that chooses between them. */
  datatype Backends = Backends(config: Config, local: LocalBlob, remote: RemoteStore)

  /** How the platform answers during one call: whether the remote service and the local
      `setItem` succeed, and the order the service enumerates documents in. */
  datatype Platform = Platform(remoteReachable: bool, localWritable: bool, order: seq<string>)

  datatype StorageError = Remote(cause: RemoteError) | LocalWriteFailed

  /** A read: the stores afterwards (reads may initialise the SDK) and the value returned. */
  datatype Read<T> = Read(after: Backends, value: T)

  /** A write: the stores afterwards and whether the promise resolved or rejected. */
  datatype Written = Written(after: Backends, outcome: Outcome<StorageError>)

  predicate UsesRemote(b: Backends) {
    IsFirebaseConfigured(b.config)
  }

  /** The local list as `getAllChecklists` reads it: a missing or unreadable blob reads as []. */
  function ReadLocal(blob: LocalBlob): (r: seq<VehicleChecklist>)
    ensures blob.Stored? ==> r == blob.checklists
    ensures !blob.Stored? ==> r == []
  {
    match blob
    case Stored(cs) => cs
    case _ => []
  }

  /** `getAllChecklists`: never rejects; every failure reads as an empty list. */
  function GetAllChecklists(b: Backends, env: Platform): (r: Read<seq<VehicleChecklist>>)
    ensures r.after.config == b.config && r.after.local == b.local && r.after.remote.docs == b.remote.docs
    ensures !UsesRemote(b) ==> r.after == b && r.value == ReadLocal(b.local)
    ensures UsesRemote(b) && !env.remoteReachable ==> r.value == []
    ensures UsesRemote(b) && env.remoteReachable ==>
      r.value == Listing(b.remote.docs, env.order)
  {
    if UsesRemote(b) then
      var reply := FetchAllChecklists(b.config, b.remote, env.order, env.remoteReachable);
      Read(b.(remote := reply.store), match reply.result case Success(cs) => cs case Failure(_) => [])
    else Read(b, ReadLocal(b.local))
  }

  /** `id` occurs at position `i` of `cs` and nowhere before it. */
  predicate FirstWithId(cs: seq<VehicleChecklist>, id: string, i: int) {
    0 <= i < |cs| && cs[i].id == id && forall j :: 0 <= j < i ==> cs[j].id != id
  }

  predicate HasId(cs: seq<VehicleChecklist>, id: string) {
    exists i :: 0 <= i < |cs| && cs[i].id == id
  }

  /** The local upsert of `saveChecklist`. When the id is already present, the FIRST record with
      it is replaced in place by the normalised record `prepared`; when it is new, the caller's
      ORIGINAL record is appended, images un-normalised. */
  function LocalUpsert(cs: seq<VehicleChecklist>, prepared: VehicleChecklist, original: VehicleChecklist)
    : (r: seq<VehicleChecklist>)
    requires prepared.id == original.id
    ensures !HasId(cs, prepared.id) ==> r == cs + [original]
    ensures forall i :: FirstWithId(cs, prepared.id, i) ==>
      |r| == |cs| && r[i] == prepared && forall j :: 0 <= j < |cs| && j != i ==> r[j] == cs[j]
  {
    match FindFirst((c: VehicleChecklist) => c.id == prepared.id, cs)
    case Some(i) => cs[i := prepared]
    case None => cs + [original]
  }

  /** The test the local delete keeps a record by. */
  function OtherThan(id: string): VehicleChecklist -> bool {
    (c: VehicleChecklist) => c.id != id
  }

  /** The local delete: every record with that id goes, the others stay in order. */
  function LocalDelete(cs: seq<VehicleChecklist>, id: string): (r: seq<VehicleChecklist>)
    ensures r == Filter(OtherThan(id), cs)
    ensures !HasId(r, id)
    ensures forall i :: 0 <= i < |cs| && cs[i].id != id ==> cs[i] in r
    ensures forall i :: 0 <= i < |r| ==> r[i] in cs
    ensures forall i :: 0 <= i < |cs| ==>
      multiset(r)[cs[i]] == if cs[i].id != id then multiset(cs)[cs[i]] else 0
    ensures !HasId(cs, id) ==> r == cs
  {
    var r := Filter(OtherThan(id), cs);
    assert forall i :: 0 <= i < |cs| ==>
      multiset(r)[cs[i]] == if cs[i].id != id then multiset(cs)[cs[i]] else 0 by {
      forall i | 0 <= i < |cs| ensures multiset(r)[cs[i]] == if cs[i].id != id then multiset(cs)[cs[i]] else 0 {
        FilterCount(OtherThan(id), cs, cs[i]);
      }
    }
    if !HasId(cs, id) then
      FilterKeepsAll(OtherThan(id), cs);
      r
    else r
  }

  /** The local delete keeps the survivors in their stored order: any relation between every
      earlier and later stored record still holds between the survivors. */
  lemma LocalDeleteKeepsOrder(cs: seq<VehicleChecklist>, id: string, R: (VehicleChecklist, VehicleChecklist) -> bool)
    requires forall i, j :: 0 <= i < j < |cs| ==> R(cs[i], cs[j])
    ensures forall i, j :: 0 <= i < j < |LocalDelete(cs, id)| ==> R(LocalDelete(cs, id)[i], LocalDelete(cs, id)[j])
  {
    FilterKeepsPairwise(OtherThan(id), cs, R);
  }

  /** The record `saveChecklist` hands to a store: the caller's, with normalised images. */
  function Prepare(c: VehicleChecklist, convert: string -> Option<string>): (p: VehicleChecklist)
    ensures p == c.(images := p.images)
    ensures |p.images| <= Images.MAX_IMAGES
  {
    c.(images := Images.EnsureImagesAreDataUrls(Some(c.images), convert))
  }

  /** `saveChecklist`: normalises the images, then upserts into exactly one store. Failures of
      the chosen store reject; nothing else changes then. */
  function SaveChecklist(b: Backends, c: VehicleChecklist, convert: string -> Option<string>, env: Platform)
    : (r: Written)
    ensures r.after.config == b.config
    ensures UsesRemote(b) ==> r.after.local == b.local
    ensures !UsesRemote(b) ==> r.after.remote == b.remote
    ensures r.outcome.Pass? <==> if UsesRemote(b) then env.remoteReachable else env.localWritable
    ensures r.outcome.Fail? ==> r.after.local == b.local && r.after.remote.docs == b.remote.docs
    ensures r.outcome.Pass? && UsesRemote(b) ==>
      r.after.remote.docs == b.remote.docs[c.id := Prepare(c, convert)]
    ensures r.outcome.Pass? && !UsesRemote(b) ==>
      r.after.local == Stored(LocalUpsert(ReadLocal(b.local), Prepare(c, convert), c))
  {
    var prepared := Prepare(c, convert);
    if UsesRemote(b) then
      var reply := SaveChecklistFirestore(b.config, b.remote, prepared, env.remoteReachable);
      Written(b.(remote := reply.store), match reply.result case Success(_) => Pass case Failure(e) => Fail(Remote(e)))
    else
      var updated := LocalUpsert(ReadLocal(b.local), prepared, c);
      if env.localWritable then Written(b.(local := Stored(updated)), Pass)
      else Written(b, Fail(LocalWriteFailed))
  }

  /** `loadChecklist`: the first record with that id, `None` when there is none and on error. */
  function LoadChecklist(b: Backends, id: string, env: Platform): (r: Read<Option<VehicleChecklist>>)
    ensures r.after.config == b.config && r.after.local == b.local && r.after.remote.docs == b.remote.docs
    ensures !UsesRemote(b) ==> r.after == b
    ensures r.value.Some? ==> r.value.value.id == id || UsesRemote(b)
    ensures UsesRemote(b) ==>
      r.value == if env.remoteReachable && id in b.remote.docs then Some(b.remote.docs[id]) else None
    ensures !UsesRemote(b) ==> (r.value.None? <==> !HasId(ReadLocal(b.local), id))
    ensures !UsesRemote(b) ==> forall i :: FirstWithId(ReadLocal(b.local), id, i) ==>
      r.value == Some(ReadLocal(b.local)[i])
  {
    if UsesRemote(b) then
      var reply := LoadChecklistFirestore(b.config, b.remote, id, env.remoteReachable);
      Read(b.(remote := reply.store), match reply.result case Success(found) => found case Failure(_) => None)
    else
      var cs := ReadLocal(b.local);
      match FindFirst((c: VehicleChecklist) => c.id == id, cs)
      case Some(i) => Read(b, Some(cs[i]))
      case None => Read(b, None)
  }

  /** `deleteChecklist`: removes the id from exactly one store; failures reject. */
  function DeleteChecklist(b: Backends, id: string, env: Platform): (r: Written)
    ensures r.after.config == b.config
    ensures UsesRemote(b) ==> r.after.local == b.local
    ensures !UsesRemote(b) ==> r.after.remote == b.remote
    ensures r.outcome.Pass? <==> if UsesRemote(b) then env.remoteReachable else env.localWritable
    ensures r.outcome.Fail? ==> r.after.local == b.local && r.after.remote.docs == b.remote.docs
    ensures r.outcome.Pass? && UsesRemote(b) ==> r.after.remote.docs == b.remote.docs - {id}
    ensures r.outcome.Pass? && !UsesRemote(b) ==> r.after.local == Stored(LocalDelete(ReadLocal(b.local), id))
  {
    if UsesRemote(b) then
      var reply := DeleteChecklistFirestore(b.config, b.remote, id, env.remoteReachable);
      Written(b.(remote := reply.store), match reply.result case Success(_) => Pass case Failure(e) => Fail(Remote(e)))
    else if env.localWritable then
      Written(b.(local := Stored(LocalDelete(ReadLocal(b.local), id))), Pass)
    else Written(b, Fail(LocalWriteFailed))
  }

  /** Reads consult only the store the configuration selects: swapping the other store for any
      value changes nothing they return. */
  lemma ReadsIgnoreInactiveStore(b: Backends, id: string, env: Platform, local: LocalBlob, remote: RemoteStore)
    ensures UsesRemote(b) ==>
      GetAllChecklists(b.(local := local), env).value == GetAllChecklists(b, env).value &&
      LoadChecklist(b.(local := local), id, env).value == LoadChecklist(b, id, env).value
    ensures !UsesRemote(b) ==>
      GetAllChecklists(b.(remote := remote), env).value == GetAllChecklists(b, env).value &&
      LoadChecklist(b.(remote := remote), id, env).value == LoadChecklist(b, id, env).value
  {
  }

  /** After upserting, the first record with the id is the one just written: the normalised
      record when the id was present, the caller's own record when it was new. */
  lemma {:induction false} UpsertThenFind(cs: seq<VehicleChecklist>, prepared: VehicleChecklist, original: VehicleChecklist)
    requires prepared.id == original.id
    ensures FirstWithId(LocalUpsert(cs, prepared, original), prepared.id,
                        match FindFirst((c: VehicleChecklist) => c.id == prepared.id, cs)
                        case Some(i) => i case None => |cs|)
    ensures LocalUpsert(cs, prepared, original)[match FindFirst((c: VehicleChecklist) => c.id == prepared.id, cs)
                        case Some(i) => i case None => |cs|]
            == if HasId(cs, prepared.id) then prepared else original
  {
    var r := LocalUpsert(cs, prepared, original);
    match FindFirst((c: VehicleChecklist) => c.id == prepared.id, cs)
    case Some(i) =>
      assert FirstWithId(cs, prepared.id, i);
    case None =>
      assert !HasId(cs, prepared.id);
      assert r == cs + [original];
      assert r[|cs|] == original;
  }

  /** Save then load: a successful save is visible to the next load of that id (given the service
      still answers). Locally a NEW record comes back exactly as the caller passed it — its images
      were not normalised — while an existing one comes back normalised. */
  lemma SaveThenLoad(b: Backends, c: VehicleChecklist, convert: string -> Option<string>, env: Platform, env2: Platform)
    requires SaveChecklist(b, c, convert, env).outcome.Pass?
    requires UsesRemote(b) ==> env2.remoteReachable
    ensures LoadChecklist(SaveChecklist(b, c, convert, env).after, c.id, env2).value ==
      Some(if UsesRemote(b) || HasId(ReadLocal(b.local), c.id) then Prepare(c, convert) else c)
  {
    if !UsesRemote(b) {
      var p := Prepare(c, convert);
      var cs := ReadLocal(b.local);
      UpsertThenFind(cs, p, c);
      var k := match FindFirst((x: VehicleChecklist) => x.id == p.id, cs) case Some(i) => i case None => |cs|;
      assert FirstWithId(ReadLocal(SaveChecklist(b, c, convert, env).after.local), c.id, k);
    }
  }

  /** Delete then load: after a successful delete no load finds the id, in either store. */
  lemma DeleteThenLoad(b: Backends, id: string, env: Platform, env2: Platform)
    requires DeleteChecklist(b, id, env).outcome.Pass?
    ensures LoadChecklist(DeleteChecklist(b, id, env).after, id, env2).value == None
  {
  }

  /** A local save grows the list by one for a new id and keeps its length for a known one. */
  lemma SaveLocalLength(b: Backends, c: VehicleChecklist, convert: string -> Option<string>, env: Platform)
    requires !UsesRemote(b) && env.localWritable
    ensures |ReadLocal(SaveChecklist(b, c, convert, env).after.local)| ==
      |ReadLocal(b.local)| + if HasId(ReadLocal(b.local), c.id) then 0 else 1
  {
    var cs := ReadLocal(b.local);
    match FindFirst((x: VehicleChecklist) => x.id == c.id, cs)
    case Some(i) =>
      assert FirstWithId(cs, c.id, i);
    case None =>
  }

  /** A blob that cannot be read counts as empty inside `saveChecklist`, so a local save over it
      replaces whatever it held with the single record saved. */
  lemma SaveOverUnreadableBlob(b: Backends, c: VehicleChecklist, convert: string -> Option<string>, env: Platform)
    requires !UsesRemote(b) && env.localWritable && b.local.Unreadable?
    ensures SaveChecklist(b, c, convert, env).after.local == Stored([c])
  {
    assert ReadLocal(b.local) == [];
  }

  /** The image bound is enforced only on updates: a new local record keeps every image it was
      given, so a record with three images is stored with three. */
  lemma NewLocalRecordKeepsAllImages(b: Backends, c: VehicleChecklist, convert: string -> Option<string>, env: Platform)
    requires !UsesRemote(b) && env.localWritable && !HasId(ReadLocal(b.local), c.id)
    ensures var stored := ReadLocal(SaveChecklist(b, c, convert, env).after.local);
      |stored| > 0 && stored[|stored| - 1] == c &&
      (|c.images| > Images.MAX_IMAGES ==> |stored[|stored| - 1].images| > Images.MAX_IMAGES)
  {
  }
}
