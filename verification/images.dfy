/** `ensureImagesAreDataUrls` of `hooks/useChecklistStorage.ts`: makes a checklist's photo
    references self-contained before it is stored. The platform byte reader (a file read on
    native, `fetch` plus `FileReader` on the web) is the oracle `convert`, which either yields
    the data URL it built or fails. */
module Images {

  import opened Wrappers
  import opened Text

  /** At most this many images are examined and kept: front and rear. */
  const MAX_IMAGES: nat := 2

  /** An image already embedded inline. */
  predicate IsDataUrl(img: string) {
    StartsWith(img, "data:")
  }

  /** The references the loop does not skip (`if (!img) continue;` drops empty strings),
      in order. */
  function Present(refs: seq<string>): (r: seq<string>)
    ensures |r| <= |refs|
    ensures forall i :: 0 <= i < |r| ==> r[i] != "" && r[i] in refs
    ensures (forall i :: 0 <= i < |refs| ==> refs[i] != "") ==> r == refs
  {
    if refs == [] then []
    else (if refs[0] != "" then [refs[0]] else []) + Present(refs[1..])
  }

  /** `images.slice(0, 2)`. */
  function FirstTwo(images: seq<string>): (r: seq<string>)
    ensures |r| <= MAX_IMAGES && |r| <= |images|
    ensures r == images[..|r|]
    ensures |images| <= MAX_IMAGES ==> r == images
  {
    if |images| <= MAX_IMAGES then images else images[..MAX_IMAGES]
  }

  /** One present reference after normalisation: embedded images pass through untouched; any
      other reference becomes the converter's output when it is a non-empty string (the
      source's `if (converted)`) and is kept verbatim otherwise. */
  function Resolve(img: string, convert: string -> Option<string>): (r: string)
    ensures IsDataUrl(img) ==> r == img
    ensures !IsDataUrl(img) ==> r == img || (convert(img).Some? && r == convert(img).value != "")
    ensures r != ""  || img == ""
  {
    if IsDataUrl(img) then img
    else match convert(img)
      case Some(d) => if d != "" then d else img
      case None => img
  }

  /** The loop body applied to every reference in order, skipping empty ones. */
  function ResolveAll(refs: seq<string>, convert: string -> Option<string>): (r: seq<string>)
    ensures |r| == |Present(refs)|
    ensures forall i :: 0 <= i < |r| ==> r[i] == Resolve(Present(refs)[i], convert)
  {
    if refs == [] then []
    else
      var rest := ResolveAll(refs[1..], convert);
      if refs[0] != "" then [Resolve(refs[0], convert)] + rest else rest
  }

  /** `ensureImagesAreDataUrls(images)`. An absent or empty list yields `[]`. Otherwise only
      the first two references are looked at; the result holds, in order, one entry per
      non-empty reference among them, and each entry is that reference normalised. */
  function EnsureImagesAreDataUrls(images: Option<seq<string>>, convert: string -> Option<string>): (r: seq<string>)
    ensures images.None? || images.value == [] ==> r == []
    ensures |r| <= MAX_IMAGES
    ensures images.Some? ==> |r| <= |images.value|
    ensures images.Some? ==> |r| == |Present(FirstTwo(images.value))|
    ensures images.Some? ==> forall i :: 0 <= i < |r| ==>
      r[i] == Resolve(Present(FirstTwo(images.value))[i], convert)
  {
    if images.None? || |images.value| == 0 then [] else ResolveAll(FirstTwo(images.value), convert)
  }

  /** Nothing past the second reference matters, neither the references themselves nor what
      the converter would make of them. */
  lemma OnlyFirstTwoExamined(a: seq<string>, b: seq<string>,
                             convertA: string -> Option<string>, convertB: string -> Option<string>)
    requires FirstTwo(a) == FirstTwo(b)
    requires forall i :: 0 <= i < |FirstTwo(a)| ==> convertA(FirstTwo(a)[i]) == convertB(FirstTwo(a)[i])
    ensures EnsureImagesAreDataUrls(Some(a), convertA) == EnsureImagesAreDataUrls(Some(b), convertB)
  {
    var ra, rb := EnsureImagesAreDataUrls(Some(a), convertA), EnsureImagesAreDataUrls(Some(b), convertB);
    var kept := Present(FirstTwo(a));
    forall i | 0 <= i < |kept|
      ensures Resolve(kept[i], convertA) == Resolve(kept[i], convertB)
    {
      var j :| 0 <= j < |FirstTwo(a)| && FirstTwo(a)[j] == kept[i];
    }
    if a == [] {
      assert FirstTwo(b) == [];
    }
    if b == [] {
      assert FirstTwo(a) == [];
    }
  }

  /** When every examined reference is embedded already, or empty, normalisation only drops the
      empty ones. */
  lemma EmbeddedPassThrough(images: seq<string>, convert: string -> Option<string>)
    requires forall i :: 0 <= i < |FirstTwo(images)| ==> FirstTwo(images)[i] == "" || IsDataUrl(FirstTwo(images)[i])
    ensures EnsureImagesAreDataUrls(Some(images), convert) == Present(FirstTwo(images))
  {
    var kept := Present(FirstTwo(images));
    forall i | 0 <= i < |kept| ensures IsDataUrl(kept[i]) {
      assert kept[i] in FirstTwo(images);
    }
    if images == [] {
      assert FirstTwo(images) == [];
    }
  }

  /** A converter that always fails loses no image and aborts nothing: every non-empty examined
      reference is kept verbatim. */
  lemma FailedConversionsKeepOriginals(images: seq<string>, convert: string -> Option<string>)
    requires forall s :: convert(s).None?
    ensures EnsureImagesAreDataUrls(Some(images), convert) == Present(FirstTwo(images))
  {
    if images == [] {
      assert FirstTwo(images) == [];
    }
  }

  /** Normalising an embedded list of at most two images changes nothing. */
  lemma NormaliseEmbeddedIsIdentity(images: seq<string>, convert: string -> Option<string>)
    requires |images| <= MAX_IMAGES
    requires forall i :: 0 <= i < |images| ==> IsDataUrl(images[i])
    ensures EnsureImagesAreDataUrls(Some(images), convert) == images
  {
    EmbeddedPassThrough(images, convert);
  }

  /** A normalised list whose entries all came out embedded is a fixed point. */
  lemma NormaliseIdempotentWhenEmbedded(images: seq<string>, convert: string -> Option<string>)
    requires forall i :: 0 <= i < |EnsureImagesAreDataUrls(Some(images), convert)| ==>
      IsDataUrl(EnsureImagesAreDataUrls(Some(images), convert)[i])
    ensures var once := EnsureImagesAreDataUrls(Some(images), convert);
      EnsureImagesAreDataUrls(Some(once), convert) == once
  {
    NormaliseEmbeddedIsIdentity(EnsureImagesAreDataUrls(Some(images), convert), convert);
  }
}
