/** The data logic of the checklist list screen (`components/checklist/ChecklistList.tsx`):
    which records a user sees, the newest-first ordering of what the repository returns, the
    confirmed delete, and the batch of ten generated test records. */
module ListScreen {

  import opened Wrappers
  import opened Text
  import opened Seqs
  import opened Checklist
  import opened Storage
  import Validate

  // ---------------------------------------------------------------------------------------
  // What a user sees

  /** The test `filteredChecklists` applies to each record. */
  function VisibleBy(user: Option<User>): VehicleChecklist -> bool {
    (c: VehicleChecklist) => VisibleTo(user, c)
  }

  /** `filteredChecklists`: an admin sees everything; anyone else sees their own records, each
      as often as it is stored and in the order given. */
  function Visible(user: Option<User>, cs: seq<VehicleChecklist>): (r: seq<VehicleChecklist>)
    ensures IsAdmin(user) ==> r == cs
    ensures !IsAdmin(user) ==> r == Filter(VisibleBy(user), cs)
    ensures |r| <= |cs| && multiset(r) <= multiset(cs)
    ensures forall i :: 0 <= i < |r| ==> VisibleTo(user, r[i])
    ensures forall i :: 0 <= i < |cs| && VisibleTo(user, cs[i]) ==> cs[i] in r
    ensures forall i :: 0 <= i < |cs| ==>
      multiset(r)[cs[i]] == if VisibleTo(user, cs[i]) then multiset(cs)[cs[i]] else 0
    ensures !IsAdmin(user) && user.Some? ==> forall i :: 0 <= i < |r| ==> r[i].userId == user.value.id
  {
    if IsAdmin(user) then cs
    else
      var r := Filter(VisibleBy(user), cs);
      assert forall i :: 0 <= i < |cs| ==>
        multiset(r)[cs[i]] == if VisibleTo(user, cs[i]) then multiset(cs)[cs[i]] else 0 by {
        forall i | 0 <= i < |cs| ensures multiset(r)[cs[i]] == if VisibleTo(user, cs[i]) then multiset(cs)[cs[i]] else 0 {
          FilterCount(VisibleBy(user), cs, cs[i]);
        }
      }
      r
  }

  /** What a user sees of a newest-first list is newest first too. */
  lemma VisibleKeepsNewestFirst(user: Option<User>, cs: seq<VehicleChecklist>)
    requires NewestFirst(cs)
    ensures NewestFirst(Visible(user, cs))
  {
    if !IsAdmin(user) {
      FilterKeepsPairwise(VisibleBy(user), cs, (a: VehicleChecklist, b: VehicleChecklist) => a.createdAt >= b.createdAt);
    }
  }

  // ---------------------------------------------------------------------------------------
  // Newest first

  predicate NewestFirst(s: seq<VehicleChecklist>) {
    forall i, j :: 0 <= i < j < |s| ==> s[i].createdAt >= s[j].createdAt
  }

  /** Puts `x` in front of the first record that is not newer than it. */
  function InsertNewest(x: VehicleChecklist, s: seq<VehicleChecklist>): (r: seq<VehicleChecklist>)
    ensures |r| == |s| + 1 && multiset(r) == multiset(s) + multiset{x}
  {
    if s == [] || x.createdAt >= s[0].createdAt then [x] + s
    else
      assert s == [s[0]] + s[1..];
      [s[0]] + InsertNewest(x, s[1..])
  }

  /** Inserting keeps every stamp at most `bound` when `x` and `s` respect it. */
  lemma {:induction false} InsertNewestBounded(x: VehicleChecklist, s: seq<VehicleChecklist>, bound: int)
    requires x.createdAt <= bound && forall i :: 0 <= i < |s| ==> s[i].createdAt <= bound
    ensures forall i :: 0 <= i < |InsertNewest(x, s)| ==> InsertNewest(x, s)[i].createdAt <= bound
  {
    if !(s == [] || x.createdAt >= s[0].createdAt) {
      InsertNewestBounded(x, s[1..], bound);
    }
  }

  /** Inserting into a newest-first list keeps it newest first. */
  lemma {:induction false} InsertNewestSorted(x: VehicleChecklist, s: seq<VehicleChecklist>)
    requires NewestFirst(s)
    ensures NewestFirst(InsertNewest(x, s))
  {
    if !(s == [] || x.createdAt >= s[0].createdAt) {
      InsertNewestSorted(x, s[1..]);
      InsertNewestBounded(x, s[1..], s[0].createdAt);
    }
  }

  /** The `createdAt` descending sort of `loadChecklists`; records with equal stamps keep their
      relative order, as `Array.prototype.sort` is stable. */
  function SortNewestFirst(cs: seq<VehicleChecklist>): (r: seq<VehicleChecklist>)
    ensures |r| == |cs| && multiset(r) == multiset(cs)
    ensures NewestFirst(r)
  {
    if cs == [] then []
    else
      assert cs == [cs[0]] + cs[1..];
      InsertNewestSorted(cs[0], SortNewestFirst(cs[1..]));
      InsertNewest(cs[0], SortNewestFirst(cs[1..]))
  }

  /** The records stamped `t`, in order. */
  function Stamped(t: int, s: seq<VehicleChecklist>): seq<VehicleChecklist> {
    if s == [] then [] else (if s[0].createdAt == t then [s[0]] else []) + Stamped(t, s[1..])
  }

  lemma {:induction false} InsertNewestStable(t: int, x: VehicleChecklist, s: seq<VehicleChecklist>)
    ensures Stamped(t, InsertNewest(x, s)) == (if x.createdAt == t then [x] else []) + Stamped(t, s)
  {
    if s == [] || x.createdAt >= s[0].createdAt {
      assert ([x] + s)[1..] == s;
    } else {
      var r := InsertNewest(x, s);
      assert r == [s[0]] + InsertNewest(x, s[1..]);
      assert r[1..] == InsertNewest(x, s[1..]);
      InsertNewestStable(t, x, s[1..]);
    }
  }

  /** Stability: for every stamp, the records carrying it come out in the order they came in. */
  lemma {:induction false} SortIsStable(t: int, cs: seq<VehicleChecklist>)
    ensures Stamped(t, SortNewestFirst(cs)) == Stamped(t, cs)
  {
    if cs != [] {
      InsertNewestStable(t, cs[0], SortNewestFirst(cs[1..]));
      SortIsStable(t, cs[1..]);
    }
  }

  /** `loadChecklists`: everything the repository returns, newest first. */
  function LoadChecklists(b: Backends, env: Platform): (r: Read<seq<VehicleChecklist>>)
    ensures r.after == GetAllChecklists(b, env).after
    ensures multiset(r.value) == multiset(GetAllChecklists(b, env).value)
    ensures NewestFirst(r.value)
  {
    var all := GetAllChecklists(b, env);
    Read(all.after, SortNewestFirst(all.value))
  }

  /** The list on screen, the loaded records as the current user may see them, is newest first. */
  lemma DisplayedNewestFirst(user: Option<User>, b: Backends, env: Platform)
    ensures NewestFirst(Visible(user, LoadChecklists(b, env).value))
  {
    VisibleKeepsNewestFirst(user, LoadChecklists(b, env).value);
  }

  // ---------------------------------------------------------------------------------------
  // Delete

  datatype DeleteResult = Cancelled | Deleted(shown: seq<VehicleChecklist>) | DeleteFailed(error: StorageError)

  datatype DeleteAttempt = DeleteAttempt(after: Backends, result: DeleteResult)

  /** `handleDelete`: nothing happens unless the confirmation resolves true; a successful delete
      is followed by a reload under `reload`. */
  function HandleDelete(confirmed: bool, id: string, b: Backends, env: Platform, reload: Platform)
    : (r: DeleteAttempt)
    ensures !confirmed ==> r == DeleteAttempt(b, Cancelled)
    ensures r.result.Deleted? <==> confirmed && DeleteChecklist(b, id, env).outcome.Pass?
    ensures confirmed && DeleteChecklist(b, id, env).outcome.Fail? ==>
      r == DeleteAttempt(DeleteChecklist(b, id, env).after, DeleteFailed(DeleteChecklist(b, id, env).outcome.error))
    ensures r.result.Deleted? ==>
      r.after == LoadChecklists(DeleteChecklist(b, id, env).after, reload).after &&
      NewestFirst(r.result.shown)
  {
    if !confirmed then DeleteAttempt(b, Cancelled)
    else
      var w := DeleteChecklist(b, id, env);
      match w.outcome
      case Fail(e) => DeleteAttempt(w.after, DeleteFailed(e))
      case Pass =>
        var shown := LoadChecklists(w.after, reload);
        DeleteAttempt(shown.after, Deleted(shown.value))
  }

  /** A confirmed, successful delete leaves the record off the refreshed list (for a remote
      collection whose documents sit under their own ids). */
  lemma DeletedIsNotShown(id: string, b: Backends, env: Platform, reload: Platform)
    requires HandleDelete(true, id, b, env, reload).result.Deleted?
    requires UsesRemote(b) ==> Firestore.KeyedById(b.remote.docs)
    ensures var shown := HandleDelete(true, id, b, env, reload).result.shown;
      forall i :: 0 <= i < |shown| ==> shown[i].id != id
  {
    ShownAfterDelete(b, id, env, reload);
  }

  /** After a successful delete the reloaded list holds no record with that id. */
  lemma ShownAfterDelete(b: Backends, id: string, env: Platform, reload: Platform)
    requires DeleteChecklist(b, id, env).outcome.Pass?
    requires UsesRemote(b) ==> Firestore.KeyedById(b.remote.docs)
    ensures var shown := LoadChecklists(DeleteChecklist(b, id, env).after, reload).value;
      forall i :: 0 <= i < |shown| ==> shown[i].id != id
  {
    var after := DeleteChecklist(b, id, env).after;
    ListedAfterDelete(b, id, env, reload);
    SortKeepsAbsence(GetAllChecklists(after, reload).value, id);
  }

  /** After a successful delete, no store lists a record with that id. */
  lemma ListedAfterDelete(b: Backends, id: string, env: Platform, reload: Platform)
    requires DeleteChecklist(b, id, env).outcome.Pass?
    requires UsesRemote(b) ==> Firestore.KeyedById(b.remote.docs)
    ensures var all := GetAllChecklists(DeleteChecklist(b, id, env).after, reload).value;
      forall i :: 0 <= i < |all| ==> all[i].id != id
  {
    var after := DeleteChecklist(b, id, env).after;
    if UsesRemote(b) {
      Firestore.DeleteKeepsKeyedById(b.config, b.remote, id, env.remoteReachable);
      Firestore.ListingOfKeyed(after.remote.docs, reload.order, id);
    }
  }

  /** Sorting neither adds records nor changes them. */
  lemma SortKeepsAbsence(cs: seq<VehicleChecklist>, id: string)
    requires forall i :: 0 <= i < |cs| ==> cs[i].id != id
    ensures forall i :: 0 <= i < |SortNewestFirst(cs)| ==> SortNewestFirst(cs)[i].id != id
  {
    var r := SortNewestFirst(cs);
    forall i | 0 <= i < |r| ensures r[i].id != id {
      assert r[i] in multiset(cs);
    }
  }

  // ---------------------------------------------------------------------------------------
  // Test batch

  /** How many records `handleGenerate` writes. */
  const BATCH_SIZE: nat := 10

  /** The clock and random readings taken for record `i`: `Date.now()` for the id, the time of
      `new Date()` with its rendered date and time, and the random odometer reading. */
  datatype Draw = Draw(idStamp: nat, created: int, today: string, clock: string, km: nat)

  /** Everything the batch depends on besides the stores: the user, the section template, the
      random status of item `j` of section `s` in record `i`, the per-record readings, the image
      converter, and how the platform answers the `i`-th save. */
  datatype Generator = Generator(
    user: Option<User>,
    template: seq<Section>,
    pick: (nat, nat, nat) -> Status,
    draws: nat -> Draw,
    convert: string -> Option<string>,
    envs: nat -> Platform)

  /** `` `${Date.now()}-${i}` ``. */
  function GeneratedId(stamp: nat, i: nat): string {
    NatToString(stamp) + "-" + NatToString(i)
  }

  /** `` `TEST-${String(i).padStart(3, '0')}` ``. */
  function GeneratedPlate(i: nat): string {
    "TEST-" + PadStart(NatToString(i), 3, '0')
  }

  /** The template with notes cleared and every item's status drawn. */
  function GeneratedSections(template: seq<Section>, i: nat, pick: (nat, nat, nat) -> Status)
    : (r: seq<Section>)
    ensures |r| == |template|
    ensures forall s :: 0 <= s < |r| ==>
      r[s].id == template[s].id && r[s].title == template[s].title && r[s].sectionNotes == "" &&
      |r[s].items| == |template[s].items|
    ensures forall s, j :: 0 <= s < |r| && 0 <= j < |r[s].items| ==>
      r[s].items[j] == template[s].items[j].(status := pick(i, s, j))
  {
    seq(|template|, s requires 0 <= s < |template| =>
      template[s].(sectionNotes := "",
                   items := seq(|template[s].items|, j requires 0 <= j < |template[s].items| =>
                              template[s].items[j].(status := pick(i, s, j)))))
  }

  /** Record `i` of the batch. It has no images; its owner is the signed-in user's id. */
  function Generated(g: Generator, i: nat): (c: VehicleChecklist)
    ensures c.id == GeneratedId(g.draws(i).idStamp, i) && c.plate == GeneratedPlate(i)
    ensures c.images == [] && c.userId == UserIdOr(g.user)
    ensures c.createdAt == g.draws(i).created && c.updatedAt == g.draws(i).created
  {
    var d := g.draws(i);
    VehicleChecklist(
      id := GeneratedId(d.idStamp, i),
      userId := UserIdOr(g.user),
      plate := GeneratedPlate(i),
      km := NatToString(d.km),
      driver := "Driver Test " + NatToString(i),
      date := d.today, time := d.clock,
      sections := GeneratedSections(g.template, i, g.pick),
      images := [],
      generalNotes := "Auto-generated for testing",
      driverSignature := "", inspectorSignature := "",
      createdAt := d.created, updatedAt := d.created)
  }

  /** The `k`-th save of the batch, on the stores `cur`. */
  function SaveStep(g: Generator, cur: Backends, k: nat): Written {
    SaveChecklist(cur, Generated(g, k), g.convert, g.envs(k))
  }

  /** The stores after records `1..k` were saved one after another. */
  function SaveBatch(g: Generator, b: Backends, k: nat): Backends
    decreases k
  {
    if k == 0 then b else SaveStep(g, SaveBatch(g, b, k - 1), k).after
  }

  /** Whether the `k`-th save of the batch succeeds, given the stores the earlier saves left. */
  predicate SaveSucceeds(g: Generator, b: Backends, k: nat)
    requires k >= 1
  {
    SaveStep(g, SaveBatch(g, b, k - 1), k).outcome.Pass?
  }

  /** The first `n` saves of the batch all succeed. */
  predicate BatchSucceeds(g: Generator, b: Backends, n: nat) {
    n == 0 || (BatchSucceeds(g, b, n - 1) && SaveSucceeds(g, b, n))
  }

  /** `handleGenerate`: after confirmation, up to ten sequential saves; the first failing save
      ends the batch, and the records before it stay saved. */
  method HandleGenerate(confirmed: bool, g: Generator, b: Backends) returns (after: Backends, saved: nat, ok: bool)
    ensures !confirmed ==> after == b && saved == 0 && !ok
    ensures saved <= BATCH_SIZE
    ensures BatchSucceeds(g, b, saved)
    ensures ok <==> confirmed && saved == BATCH_SIZE
    ensures ok ==> after == SaveBatch(g, b, BATCH_SIZE)
    ensures confirmed && !ok ==>
      !SaveSucceeds(g, b, saved + 1) && after == SaveStep(g, SaveBatch(g, b, saved), saved + 1).after
    ensures confirmed && !ok ==>
      after.local == SaveBatch(g, b, saved).local && after.remote.docs == SaveBatch(g, b, saved).remote.docs
  {
    if !confirmed {
      return b, 0, false;
    }
    after, saved, ok := b, 0, true;
    var i: nat := 1;
    while i <= BATCH_SIZE
      invariant 1 <= i <= BATCH_SIZE + 1 && saved == i - 1
      invariant after == SaveBatch(g, b, saved)
      invariant BatchSucceeds(g, b, saved)
      decreases BATCH_SIZE + 1 - i
    {
      var w := SaveStep(g, after, i);
      if w.outcome.Fail? {
        return w.after, saved, false;
      }
      after := w.after;
      saved := i;
      i := i + 1;
    }
  }

  /** The separator of a generated id sits right after the stamp's digits. */
  lemma GeneratedIdSeparator(stamp: nat, i: nat)
    ensures IndexOf(GeneratedId(stamp, i), '-') == Some(|NatToString(stamp)|)
  {
    var s := NatToString(stamp);
    var x := GeneratedId(stamp, i);
    assert x[..|s|] == s;
    assert x[|s|] == '-';
    assert '-' !in s by {
      forall k | 0 <= k < |s| ensures s[k] != '-' {
        assert IsDigit(s[k]);
      }
    }
  }

  /** Ids within a batch are distinct whatever the clock reads: equal ids have their separator
      at the same place, hence equal index digits. */
  lemma GeneratedIdsDistinct(a: nat, i: nat, b: nat, j: nat)
    requires i != j
    ensures GeneratedId(a, i) != GeneratedId(b, j)
  {
    var x, y := GeneratedId(a, i), GeneratedId(b, j);
    if x == y {
      GeneratedIdSeparator(a, i);
      GeneratedIdSeparator(b, j);
      var n := |NatToString(a)|;
      assert x[n + 1..] == NatToString(i);
      assert y[n + 1..] == NatToString(j);
      NatToStringInjective(i, j);
    }
  }

  /** The ten plates are TEST-001 … TEST-010: the index in three digits. */
  lemma GeneratedPlateDigits(i: nat)
    requires 1 <= i <= BATCH_SIZE
    ensures GeneratedPlate(i) == "TEST-" + [DigitChar(i / 100), DigitChar(i / 10 % 10), DigitChar(i % 10)]
  {
    if i == 10 {
      assert NatToString(10) == NatToString(1) + [DigitChar(0)];
    }
  }

  /** Four capitals, a separator and three digits clean to the four-letters shape. */
  lemma FourLettersDashDigits(w: string, sep: char, d: string)
    requires |w| == 4 && forall k :: 0 <= k < 4 ==> IsUpper(w[k])
    requires |d| == 3 && forall k :: 0 <= k < 3 ==> IsDigit(d[k])
    requires !IsAlnum(sep)
    ensures Validate.ValidatePlate(Validate.JsString(w + [sep] + d))
  {
    var c := w + d;
    Validate.CleanPlateOfClean(c);
    assert Validate.Matches(c, Validate.FOUR_LETTERS);
    assert Validate.IsPlateResidue(Validate.CleanPlate(c));
    Validate.PlateIgnoresSeparator(w, sep, d);
  }

  /** Every generated plate has the four-letters-three-digits shape the plate validator accepts. */
  lemma GeneratedPlateIsValid(i: nat)
    requires 1 <= i <= BATCH_SIZE
    ensures Validate.ValidatePlate(Validate.JsString(GeneratedPlate(i)))
  {
    GeneratedPlateDigits(i);
    var digits := [DigitChar(i / 100), DigitChar(i / 10 % 10), DigitChar(i % 10)];
    var w: string := "TEST";
    assert GeneratedPlate(i) == w + ['-'] + digits;
    FourLettersDashDigits(w, '-', digits);
  }
}
