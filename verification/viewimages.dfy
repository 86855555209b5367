/** The photo viewer (`app/view-images.tsx`): every photo of the records the user may see,
    each labelled with its plate and position, optionally narrowed to one record, and the file
    name a downloaded photo is saved under. */
module ViewImages {

  import opened Wrappers
  import opened Text
  import opened Seqs
  import opened Checklist
  import opened Storage
  import ListScreen

  /** One photo on the page with its caption (the source calls it the label). */
  datatype Entry = Entry(uri: string, caption: string)

  /** Position 0 is the front, 1 the rear, any later one is numbered from 1. */
  function PositionName(idx: nat): (r: string)
    ensures idx == 0 ==> r == "Frente"
    ensures idx == 1 ==> r == "Trás"
    ensures idx >= 2 ==> r == "Imagem " + NatToString(idx + 1)
  {
    if idx == 0 then "Frente" else if idx == 1 then "Trás" else "Imagem " + NatToString(idx + 1)
  }

  function Label(plate: string, idx: nat): (r: string)
    ensures StartsWith(r, plate + " - ")
    ensures r[|plate| + 3..] == PositionName(idx)
  {
    assert (plate + " - " + PositionName(idx))[..|plate| + 3] == plate + " - ";
    plate + " - " + PositionName(idx)
  }

  /** Different positions get different names. */
  lemma PositionNamesDistinct(i: nat, j: nat)
    requires i != j
    ensures PositionName(i) != PositionName(j)
  {
    var prefix := "Imagem ";
    if i >= 2 && j >= 2 && PositionName(i) == PositionName(j) {
      assert PositionName(i)[|prefix|..] == NatToString(i + 1);
      assert PositionName(j)[|prefix|..] == NatToString(j + 1);
      NatToStringInjective(i + 1, j + 1);
    }
  }

  /** So the photos of one record carry pairwise different labels. */
  lemma LabelsDistinct(plate: string, i: nat, j: nat)
    requires i != j
    ensures Label(plate, i) != Label(plate, j)
  {
    PositionNamesDistinct(i, j);
  }

  /** The photos of one record, in order, each with its label. */
  function EntriesOf(c: VehicleChecklist): (r: seq<Entry>)
    ensures |r| == |c.images|
    ensures forall idx :: 0 <= idx < |r| ==> r[idx] == Entry(c.images[idx], Label(c.plate, idx))
  {
    seq(|c.images|, idx requires 0 <= idx < |c.images| => Entry(c.images[idx], Label(c.plate, idx)))
  }

  /** The photos of all given records, record after record. */
  function AllEntries(cs: seq<VehicleChecklist>): (r: seq<Entry>)
    ensures |r| == ImageCount(cs)
  {
    if cs == [] then [] else EntriesOf(cs[0]) + AllEntries(cs[1..])
  }

  /** How many photos the records hold together. */
  function ImageCount(cs: seq<VehicleChecklist>): nat {
    if cs == [] then 0 else |cs[0].images| + ImageCount(cs[1..])
  }

  /** The flattened list has one entry per photo, and its URIs are the photos in order. */
  lemma {:induction false} AllEntriesIsFlattening(cs: seq<VehicleChecklist>)
    ensures |AllEntries(cs)| == ImageCount(cs) && |Flatten(ImagesOf(cs))| == ImageCount(cs)
    ensures forall i :: 0 <= i < ImageCount(cs) ==> AllEntries(cs)[i].uri == Flatten(ImagesOf(cs))[i]
  {
    if cs != [] {
      AllEntriesIsFlattening(cs[1..]);
      assert ImagesOf(cs)[1..] == ImagesOf(cs[1..]);
      var e, f := AllEntries(cs), Flatten(ImagesOf(cs));
      assert f == cs[0].images + Flatten(ImagesOf(cs[1..]));
      assert e == EntriesOf(cs[0]) + AllEntries(cs[1..]);
      forall i | 0 <= i < |e| ensures e[i].uri == f[i] {
        if i >= |cs[0].images| {
          assert e[i] == AllEntries(cs[1..])[i - |cs[0].images|];
        }
      }
    }
  }

  /** The records' image lists. */
  function ImagesOf(cs: seq<VehicleChecklist>): (r: seq<seq<string>>)
    ensures |r| == |cs| && forall i :: 0 <= i < |cs| ==> r[i] == cs[i].images
  {
    seq(|cs|, i requires 0 <= i < |cs| => cs[i].images)
  }

  /** The page's list for the records `data` the repository returned. A non-empty
      `checklistId` (the web page's query parameter) narrows it to the first visible record
      with that id, or to nothing; an absent or empty one shows every visible photo. */
  function PageEntries(data: seq<VehicleChecklist>, user: Option<User>, checklistId: Option<string>)
    : (r: seq<Entry>)
    ensures (checklistId.None? || checklistId.value == "") ==>
      r == AllEntries(ListScreen.Visible(user, data))
    ensures checklistId.Some? && checklistId.value != "" ==>
      match FindFirst((c: VehicleChecklist) => c.id == checklistId.value, ListScreen.Visible(user, data))
      case None => r == []
      case Some(i) => r == EntriesOf(ListScreen.Visible(user, data)[i])
  {
    var visible := ListScreen.Visible(user, data);
    if checklistId.None? || checklistId.value == "" then AllEntries(visible)
    else match Find((c: VehicleChecklist) => c.id == checklistId.value, visible)
      case Some(c) => EntriesOf(c)
      case None => []
  }

  /** With an id, the photos shown are exactly those of one visible record with that id, or
      none when no visible record has it. */
  lemma NarrowedToOneRecord(data: seq<VehicleChecklist>, user: Option<User>, id: string)
    requires id != ""
    ensures var r := PageEntries(data, user, Some(id));
      r == [] || exists c :: c in data && VisibleTo(user, c) && c.id == id && r == EntriesOf(c)
    ensures (forall i :: 0 <= i < |data| ==> !(VisibleTo(user, data[i]) && data[i].id == id)) ==>
      PageEntries(data, user, Some(id)) == []
  {
    var visible := ListScreen.Visible(user, data);
    match FindFirst((c: VehicleChecklist) => c.id == id, visible)
    case Some(i) =>
      assert visible[i] in data;
    case None =>
    if forall i :: 0 <= i < |data| ==> !(VisibleTo(user, data[i]) && data[i].id == id) {
      forall i | 0 <= i < |visible| ensures visible[i].id != id {
        assert visible[i] in data;
      }
    }
  }

  /** `load`: fetch everything, then build the page's list. Reading never fails. */
  function Load(b: Backends, env: Platform, user: Option<User>, checklistId: Option<string>)
    : (r: Read<seq<Entry>>)
    ensures r.after == GetAllChecklists(b, env).after
    ensures r.value == PageEntries(GetAllChecklists(b, env).value, user, checklistId)
  {
    var all := GetAllChecklists(b, env);
    Read(all.after, PageEntries(all.value, user, checklistId))
  }

  // ---------------------------------------------------------------------------------------
  // Download name

  /** The characters a download name keeps: ASCII letters, digits, `_`, `.` and `-`. */
  predicate IsSafe(c: char) {
    IsAlnum(c) || c == '_' || c == '.' || c == '-'
  }

  /** `replace(/[^a-z0-9_.-]/gi, '_')`. */
  function Sanitize(s: string): (r: string)
    ensures |r| == |s|
    ensures forall i :: 0 <= i < |r| ==> IsSafe(r[i])
    ensures forall i :: 0 <= i < |r| ==> r[i] == if IsSafe(s[i]) then s[i] else '_'
  {
    seq(|s|, i requires 0 <= i < |s| => if IsSafe(s[i]) then s[i] else '_')
  }

  /** Sanitising twice is sanitising once; a safe name is left alone. */
  lemma SanitizeIdempotent(s: string)
    ensures Sanitize(Sanitize(s)) == Sanitize(s)
    ensures (forall i :: 0 <= i < |s| ==> IsSafe(s[i])) ==> Sanitize(s) == s
  {
  }

  /** The name `downloadImage` gives the file: the sanitised caption (`image` for an empty one)
      with `.jpg` appended. */
  function DownloadName(caption: string): (r: string)
    ensures EndsWith(r, ".jpg")
    ensures caption != "" ==> r == Sanitize(caption) + ".jpg"
    ensures caption == "" ==> r == "image.jpg"
    ensures forall i :: 0 <= i < |r| ==> IsSafe(r[i])
  {
    var base := Sanitize(if caption == "" then "image" else caption);
    assert caption == "" ==> base == "image";
    assert (base + ".jpg")[|base|..] == ".jpg";
    base + ".jpg"
  }
}
