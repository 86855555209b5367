/** The data logic of the checklist form (`components/checklist/ChecklistForm.tsx`): the record
    a new form starts from, the typed section and item edits, the photo list edits, and the
    save gate that validates five fields before handing the record to the repository. */
module Form {

  import opened Wrappers
  import opened Text
  import opened Checklist
  import opened Validate
  import opened Storage
  import Images

  // ---------------------------------------------------------------------------------------
  // Initial record

  /** The template sections with their notes cleared, in template order. */
  function BlankSections(template: seq<Section>): (r: seq<Section>)
    ensures |r| == |template|
    ensures forall i :: 0 <= i < |r| ==> r[i] == template[i].(sectionNotes := "")
  {
    seq(|template|, i requires 0 <= i < |template| => template[i].(sectionNotes := ""))
  }

  /** The record a form starts from. `now` is `Date.now()`; `today` and `clock` are the local
      date and `HH:MM` time the platform renders for it. */
  function InitialChecklist(checklistId: string, user: Option<User>, now: nat, today: string, clock: string,
                            template: seq<Section>): (r: VehicleChecklist)
    ensures r.id == (if checklistId != "" then checklistId else NatToString(now))
    ensures r.id != ""
    ensures r.userId == UserIdOr(user)
    ensures r.plate == "" && r.km == "" && r.driver == ""
    ensures r.date == today && r.time == clock
    ensures |r.sections| == |template|
    ensures forall i :: 0 <= i < |template| ==>
      r.sections[i].id == template[i].id && r.sections[i].title == template[i].title &&
      r.sections[i].items == template[i].items && r.sections[i].sectionNotes == ""
    ensures r.images == []
    ensures r.generalNotes == "" && r.driverSignature == "" && r.inspectorSignature == ""
    ensures r.createdAt == now && r.updatedAt == now
  {
    VehicleChecklist(
      id := if checklistId != "" then checklistId else NatToString(now),
      userId := UserIdOr(user),
      plate := "", km := "", driver := "",
      date := today, time := clock,
      sections := BlankSections(template),
      images := [],
      generalNotes := "", driverSignature := "", inspectorSignature := "",
      createdAt := now, updatedAt := now)
  }

  /** The focus effect: with an id, a record the repository finds replaces the form state. */
  function OnFocus(state: VehicleChecklist, checklistId: string, b: Backends, env: Platform)
    : (r: Read<VehicleChecklist>)
    ensures checklistId == "" ==> r == Read(b, state)
    ensures checklistId != "" ==> r.after == LoadChecklist(b, checklistId, env).after
    ensures checklistId != "" ==>
      r.value == LoadChecklist(b, checklistId, env).value.GetOr(state)
  {
    if checklistId == "" then Read(b, state)
    else
      var loaded := LoadChecklist(b, checklistId, env);
      Read(loaded.after, match loaded.value case Some(c) => c case None => state)
  }

  // ---------------------------------------------------------------------------------------
  // Section and item edits

  /** The edits the section component sends for one item. */
  datatype ItemUpdate = SetStatus(status: Status) | SetItemNotes(notes: string)

  /** The edit the section component sends for a section's own notes. */
  datatype SectionUpdate = SetSectionNotes(sectionNotes: string)

  /** `{ ...item, ...updates }`. */
  function ApplyToItem(item: Item, u: ItemUpdate): (r: Item)
    ensures r.id == item.id && r.name == item.name
    ensures u.SetStatus? ==> r.status == u.status && r.notes == item.notes
    ensures u.SetItemNotes? ==> r.notes == u.notes && r.status == item.status
  {
    match u
    case SetStatus(s) => item.(status := s)
    case SetItemNotes(n) => item.(notes := n)
  }

  /** `{ ...section, ...updates }`. */
  function ApplyToSection(s: Section, u: SectionUpdate): (r: Section)
    ensures r.id == s.id && r.title == s.title && r.items == s.items
    ensures r.sectionNotes == u.sectionNotes
  {
    s.(sectionNotes := u.sectionNotes)
  }

  /** `updateSection`: every section whose id matches gets the edit; the rest are untouched. */
  function UpdateSection(sections: seq<Section>, sectionId: string, u: SectionUpdate): (r: seq<Section>)
    ensures |r| == |sections|
    ensures forall i :: 0 <= i < |r| ==> r[i].id == sections[i].id && r[i].items == sections[i].items
    ensures forall i :: 0 <= i < |r| && sections[i].id != sectionId ==> r[i] == sections[i]
    ensures forall i :: 0 <= i < |r| && sections[i].id == sectionId ==>
      r[i] == sections[i].(sectionNotes := u.sectionNotes)
  {
    seq(|sections|, i requires 0 <= i < |sections| =>
      if sections[i].id == sectionId then ApplyToSection(sections[i], u) else sections[i])
  }

  /** The items of one section with the edit applied to every item whose id matches. */
  function UpdateItems(items: seq<Item>, itemId: string, u: ItemUpdate): (r: seq<Item>)
    ensures |r| == |items|
    ensures forall j :: 0 <= j < |r| ==> r[j].id == items[j].id
    ensures forall j :: 0 <= j < |r| && items[j].id != itemId ==> r[j] == items[j]
    ensures forall j :: 0 <= j < |r| && items[j].id == itemId ==> r[j] == ApplyToItem(items[j], u)
  {
    seq(|items|, j requires 0 <= j < |items| =>
      if items[j].id == itemId then ApplyToItem(items[j], u) else items[j])
  }

  /** `updateItem`: edits the items with id `itemId` inside the sections with id `sectionId`. */
  function UpdateItem(sections: seq<Section>, sectionId: string, itemId: string, u: ItemUpdate)
    : (r: seq<Section>)
    ensures |r| == |sections|
    ensures forall i :: 0 <= i < |r| ==>
      r[i].id == sections[i].id && r[i].title == sections[i].title &&
      r[i].sectionNotes == sections[i].sectionNotes && |r[i].items| == |sections[i].items|
    ensures forall i, j :: 0 <= i < |r| && 0 <= j < |r[i].items| ==> r[i].items[j].id == sections[i].items[j].id
    ensures forall i :: 0 <= i < |r| && sections[i].id != sectionId ==> r[i] == sections[i]
    ensures forall i, j :: 0 <= i < |r| && 0 <= j < |r[i].items| && sections[i].items[j].id != itemId ==>
      r[i].items[j] == sections[i].items[j]
    ensures forall i, j ::
      (0 <= i < |r| && 0 <= j < |r[i].items| && sections[i].id == sectionId && sections[i].items[j].id == itemId) ==>
      r[i].items[j] == ApplyToItem(sections[i].items[j], u)
  {
    seq(|sections|, i requires 0 <= i < |sections| =>
      if sections[i].id == sectionId then sections[i].(items := UpdateItems(sections[i].items, itemId, u))
      else sections[i])
  }

  /** Edits of two different items commute. */
  lemma ItemEditsCommute(sections: seq<Section>, s1: string, i1: string, u1: ItemUpdate,
                         s2: string, i2: string, u2: ItemUpdate)
    requires s1 != s2 || i1 != i2
    ensures UpdateItem(UpdateItem(sections, s1, i1, u1), s2, i2, u2) ==
            UpdateItem(UpdateItem(sections, s2, i2, u2), s1, i1, u1)
  {
    var a := UpdateItem(UpdateItem(sections, s1, i1, u1), s2, i2, u2);
    var b := UpdateItem(UpdateItem(sections, s2, i2, u2), s1, i1, u1);
    forall i | 0 <= i < |sections| ensures a[i] == b[i] {
      assert a[i].items == b[i].items;
    }
  }

  /** Setting a status twice keeps only the second. */
  lemma LaterItemEditWins(sections: seq<Section>, sectionId: string, itemId: string, s1: Status, s2: Status)
    ensures UpdateItem(UpdateItem(sections, sectionId, itemId, SetStatus(s1)), sectionId, itemId, SetStatus(s2)) ==
            UpdateItem(sections, sectionId, itemId, SetStatus(s2))
  {
    var a := UpdateItem(UpdateItem(sections, sectionId, itemId, SetStatus(s1)), sectionId, itemId, SetStatus(s2));
    var b := UpdateItem(sections, sectionId, itemId, SetStatus(s2));
    forall i | 0 <= i < |sections| ensures a[i] == b[i] {
      assert a[i].items == b[i].items;
    }
  }

  // ---------------------------------------------------------------------------------------
  // Photos

  /** `images.filter((_, i) => i !== index)`. */
  function RemoveImage(images: seq<string>, index: int): (r: seq<string>)
    ensures |r| == if 0 <= index < |images| then |images| - 1 else |images|
    ensures forall j :: 0 <= j < |r| ==> r[j] == images[if 0 <= index <= j then j + 1 else j]
  {
    if images == [] then []
    else
      var last := |images| - 1;
      RemoveImage(images[..last], index) + (if last != index then [images[last]] else [])
  }

  /** Removing an in-range index cuts exactly that element; any other index changes nothing. */
  lemma RemoveImageIsCut(images: seq<string>, index: int)
    ensures 0 <= index < |images| ==> RemoveImage(images, index) == images[..index] + images[index + 1..]
    ensures !(0 <= index < |images|) ==> RemoveImage(images, index) == images
  {
  }

  /** `[...images, img].slice(0, 2)`. */
  function AddImage(images: seq<string>, img: string): (r: seq<string>)
    ensures |r| <= Images.MAX_IMAGES
    ensures |images| < Images.MAX_IMAGES ==> r == images + [img]
    ensures |images| >= Images.MAX_IMAGES ==> r == images[..Images.MAX_IMAGES]
  {
    var added := images + [img];
    if |added| <= Images.MAX_IMAGES then added else added[..Images.MAX_IMAGES]
  }

  /** The extension `/\.([0-9a-zA-Z]+)(?:\?|$)/` captures at position `p` of `uri`: a dot, a
      maximal run of letters and digits, then `?` or the end. */
  predicate ExtensionAt(uri: string, p: int) {
    0 <= p < |uri| && uri[p] == '.' && AlnumRun(uri, p + 1) > 0 &&
    (p + 1 + AlnumRun(uri, p + 1) == |uri| || uri[p + 1 + AlnumRun(uri, p + 1)] == '?')
  }

  /** The length of the run of letters and digits starting at `i`. */
  function AlnumRun(s: string, i: nat): (n: nat)
    requires i <= |s|
    ensures i + n <= |s|
    ensures forall k :: i <= k < i + n ==> IsAlnum(s[k])
    ensures i + n < |s| ==> !IsAlnum(s[i + n])
    decreases |s| - i
  {
    if i < |s| && IsAlnum(s[i]) then 1 + AlnumRun(s, i + 1) else 0
  }

  /** The leftmost position from `from` on where the extension pattern matches. */
  function FindExtension(uri: string, from: nat): (r: Option<nat>)
    requires from <= |uri|
    ensures r.Some? ==> from <= r.value && ExtensionAt(uri, r.value)
    ensures r.Some? ==> forall q :: from <= q < r.value ==> !ExtensionAt(uri, q)
    ensures r.None? ==> forall q :: from <= q < |uri| ==> !ExtensionAt(uri, q)
    decreases |uri| - from
  {
    if from == |uri| then None
    else if ExtensionAt(uri, from) then Some(from)
    else FindExtension(uri, from + 1)
  }

  /** The MIME subtype guessed from the picked file's URI: the leftmost captured extension,
      `jpg` when there is none, and `jpg` spelled `jpeg`. */
  function MimeTag(uri: string): (tag: string)
    ensures tag != ""
    ensures tag != "jpg"
    ensures FindExtension(uri, 0).None? ==> tag == "jpeg"
  {
    var ext := match FindExtension(uri, 0)
      case Some(p) => uri[p + 1 .. p + 1 + AlnumRun(uri, p + 1)]
      case None => "jpg";
    if ext == "jpg" then "jpeg" else ext
  }

  /** The data URL built from the picker's base64 payload. */
  function DataUrl(uri: string, base64: string): (r: string)
    ensures Images.IsDataUrl(r)
    ensures EndsWith(r, base64)
  {
    var tag := MimeTag(uri);
    var head := "data:image/" + tag + ";base64,";
    assert (head + base64)[..5] == "data:";
    assert (head + base64)[|head|..] == base64;
    head + base64
  }

  /** A URI made of a base in which no dot starts an extension, then a letters-and-digits
      extension, then an optional query, yields that extension (with `jpg` spelled `jpeg`). */
  lemma MimeTagOfFileName(base: string, ext: string, query: string)
    requires forall q :: 0 <= q < |base| ==> !ExtensionAt(base + "." + ext + query, q)
    requires ext != [] && forall k :: 0 <= k < |ext| ==> IsAlnum(ext[k])
    requires query == [] || query[0] == '?'
    ensures MimeTag(base + "." + ext + query) == if ext == "jpg" then "jpeg" else ext
  {
    var uri := base + "." + ext + query;
    var p := |base|;
    assert uri[p] == '.';
    AlnumRunOfWord(uri, p + 1, ext);
    assert ExtensionAt(uri, p);
    FindExtensionFirst(uri, 0, p);
    assert uri[p + 1 .. p + 1 + |ext|] == ext;
  }

  /** In particular when the base has no dot at all. */
  lemma MimeTagOfDotlessBase(base: string, ext: string, query: string)
    requires '.' !in base && ext != [] && forall k :: 0 <= k < |ext| ==> IsAlnum(ext[k])
    requires query == [] || query[0] == '?'
    ensures MimeTag(base + "." + ext + query) == if ext == "jpg" then "jpeg" else ext
  {
    var uri := base + "." + ext + query;
    forall q | 0 <= q < |base| ensures !ExtensionAt(uri, q) {
      assert uri[q] == base[q];
    }
    MimeTagOfFileName(base, ext, query);
  }

  lemma {:induction false} AlnumRunOfWord(s: string, i: nat, w: string)
    requires i + |w| <= |s| && s[i .. i + |w|] == w && forall k :: 0 <= k < |w| ==> IsAlnum(w[k])
    requires i + |w| == |s| || !IsAlnum(s[i + |w|])
    ensures AlnumRun(s, i) == |w|
    decreases |w|
  {
    if w != [] {
      assert s[i] == w[0];
      assert s[i + 1 .. i + 1 + |w[1..]|] == w[1..];
      AlnumRunOfWord(s, i + 1, w[1..]);
    }
  }

  lemma {:induction false} FindExtensionFirst(uri: string, from: nat, p: nat)
    requires from <= p && ExtensionAt(uri, p) && forall q :: from <= q < p ==> !ExtensionAt(uri, q)
    ensures FindExtension(uri, from) == Some(p)
    decreases p - from
  {
    if from < p {
      FindExtensionFirst(uri, from + 1, p);
    }
  }

  /** A picked photo that is already embedded passes the repository's normaliser untouched. */
  lemma PickedPhotoIsEmbedded(uri: string, base64: string, convert: string -> Option<string>)
    ensures Images.Resolve(DataUrl(uri, base64), convert) == DataUrl(uri, base64)
  {
  }

  /** What one run of the photo picker delivered. */
  datatype PickerRun =
    | WebFile(readerResult: Option<string>)                // the browser file input and FileReader
    | Library(granted: bool, picked: Option<LibraryImage>) // the native image library

  datatype LibraryImage = LibraryImage(base64: string, uri: string)

  /** `handlePickImage`: with two photos already present nothing happens; on the web only an
      admin may add one; on native a base64 payload becomes a data URL and otherwise the URI
      is stored as it is. Cancelling, a refused permission or an empty result add nothing. */
  function HandlePickImage(images: seq<string>, user: Option<User>, run: PickerRun): (r: seq<string>)
    ensures |images| >= Images.MAX_IMAGES ==> r == images
    ensures |images| <= Images.MAX_IMAGES ==> |r| <= Images.MAX_IMAGES
    ensures r == images || (|r| == |images| + 1 && r[..|images|] == images)
    ensures run.WebFile? && !IsAdmin(user) ==> r == images
    ensures run.Library? && !run.granted ==> r == images
    ensures run.Library? && |images| < Images.MAX_IMAGES && run.granted && run.picked.Some? ==>
      r == images + [if run.picked.value.base64 != "" then DataUrl(run.picked.value.uri, run.picked.value.base64)
                     else run.picked.value.uri]
  {
    if |images| >= Images.MAX_IMAGES then images
    else match run
      case WebFile(result) =>
        if IsAdmin(user) && result.Some? && result.value != "" then AddImage(images, result.value) else images
      case Library(granted, picked) =>
        if !granted || picked.None? then images
        else if picked.value.base64 != "" then AddImage(images, DataUrl(picked.value.uri, picked.value.base64))
        else AddImage(images, picked.value.uri)
  }

  // ---------------------------------------------------------------------------------------
  // Saving

  /** The five checked fields, in the order `handleSave` checks them. */
  datatype Field = PlateField | DriverField | KmField | DateField | TimeField

  predicate PlateOk(c: VehicleChecklist) { c.plate != "" && ValidatePlate(JsString(c.plate)) }
  predicate DriverOk(c: VehicleChecklist) { c.driver != "" && ValidateText(JsString(c.driver)) }
  predicate KmOk(c: VehicleChecklist) { ValidateKm(c.km) }
  predicate DateOk(c: VehicleChecklist, parses: string -> bool) { ValidateDateString(c.date, parses) }
  predicate TimeOk(c: VehicleChecklist) { ValidateTimeString(JsString(c.time)) }

  predicate AllFieldsValid(c: VehicleChecklist, parses: string -> bool) {
    PlateOk(c) && DriverOk(c) && KmOk(c) && DateOk(c, parses) && TimeOk(c)
  }

  /** The field whose alert `handleSave` shows: the first that fails, or none. */
  function FirstInvalid(c: VehicleChecklist, parses: string -> bool): (r: Option<Field>)
    ensures r.None? <==> AllFieldsValid(c, parses)
    ensures r == Some(PlateField) <==> !PlateOk(c)
    ensures r == Some(DriverField) <==> PlateOk(c) && !DriverOk(c)
    ensures r == Some(KmField) <==> PlateOk(c) && DriverOk(c) && !KmOk(c)
    ensures r == Some(DateField) <==> PlateOk(c) && DriverOk(c) && KmOk(c) && !DateOk(c, parses)
    ensures r == Some(TimeField) <==> PlateOk(c) && DriverOk(c) && KmOk(c) && DateOk(c, parses) && !TimeOk(c)
  {
    if !PlateOk(c) then Some(PlateField)
    else if !DriverOk(c) then Some(DriverField)
    else if !KmOk(c) then Some(KmField)
    else if !DateOk(c, parses) then Some(DateField)
    else if !TimeOk(c) then Some(TimeField)
    else None
  }

  /** The record `handleSave` stores: the form state with an owner filled in (the form's own,
      else the signed-in user's, else empty) and a fresh `updatedAt`. */
  function SavedRecord(form: VehicleChecklist, user: Option<User>, now: int): (r: VehicleChecklist)
    ensures r == form.(userId := r.userId, updatedAt := now)
    ensures form.userId != "" ==> r.userId == form.userId
    ensures form.userId == "" ==> r.userId == UserIdOr(user)
  {
    form.(userId := if form.userId != "" then form.userId else UserIdOr(user), updatedAt := now)
  }

  datatype SaveOutcome = Invalid(field: Field) | Saved(record: VehicleChecklist) | SaveFailed(error: StorageError)

  datatype SaveAttempt = SaveAttempt(after: Backends, outcome: SaveOutcome)

  /** `handleSave`: the first invalid field stops it before the repository is touched; a valid
      form is saved and the saved record is what `onSave` receives. */
  function HandleSave(form: VehicleChecklist, user: Option<User>, now: int, parses: string -> bool,
                      b: Backends, convert: string -> Option<string>, env: Platform): (r: SaveAttempt)
    ensures FirstInvalid(form, parses).Some? ==> r == SaveAttempt(b, Invalid(FirstInvalid(form, parses).value))
    ensures FirstInvalid(form, parses).None? ==>
      r.after == SaveChecklist(b, SavedRecord(form, user, now), convert, env).after
    ensures r.outcome.Saved? <==>
      AllFieldsValid(form, parses) && SaveChecklist(b, SavedRecord(form, user, now), convert, env).outcome.Pass?
    ensures r.outcome.Saved? ==> r.outcome.record == SavedRecord(form, user, now)
  {
    match FirstInvalid(form, parses)
    case Some(f) => SaveAttempt(b, Invalid(f))
    case None =>
      var rec := SavedRecord(form, user, now);
      var w := SaveChecklist(b, rec, convert, env);
      SaveAttempt(w.after, match w.outcome case Pass => Saved(rec) case Fail(e) => SaveFailed(e))
  }

  /** Every record the form manages to save carries five valid fields, and the repository hands
      such a record back on the next load of its id. */
  lemma SavedFormReloadsValid(form: VehicleChecklist, user: Option<User>, now: int, parses: string -> bool,
                              b: Backends, convert: string -> Option<string>, env: Platform, env2: Platform)
    requires HandleSave(form, user, now, parses, b, convert, env).outcome.Saved?
    requires UsesRemote(b) ==> env2.remoteReachable
    ensures var loaded := LoadChecklist(HandleSave(form, user, now, parses, b, convert, env).after, form.id, env2).value;
      loaded.Some? && AllFieldsValid(loaded.value, parses) && loaded.value.id == form.id
  {
    var rec := SavedRecord(form, user, now);
    SaveThenLoad(b, rec, convert, env, env2);
  }
}
