/**
 * `Recipe.validate_tags` (src/models.py): every tag is lower-cased and
 * stripped, and the normalised list is accepted only when each of its tags
 * belongs to the tag vocabulary; otherwise the first tag outside it is
 * reported. The vocabulary (`VALID_TAGS`) is a parameter here.
 */
module Models {
  import opened Wrappers
  import opened Text

  /** The `ValueError` that `validate_tags` raises. */
  datatype TagError = InvalidTag(tag: string) {
    /** The error text, which ends with the offending tag. */
    function Message(): (m: string)
      ensures |m| > |tag| && m[|m| - |tag|..] == tag
    {
      "Invalid tag: " + tag
    }
  }

  /** `t.lower().strip()`: lower case first, then strip. */
  function Normalize(t: string): (n: string)
    ensures IsLowerCase(n) && IsStripped(n)
  {
    StripKeepsLowerCase(Lower(t));
    Strip(Lower(t))
  }

  /** The comprehension building `clean`: one normalised tag per input tag,
      in the same order. */
  function NormalizeAll(tags: seq<string>): (clean: seq<string>)
    ensures |clean| == |tags|
    ensures forall k :: 0 <= k < |tags| ==> clean[k] == Normalize(tags[k])
  {
    if tags == [] then [] else [Normalize(tags[0])] + NormalizeAll(tags[1..])
  }

  /** The scan over `clean`: the position of the first tag outside the
      vocabulary, or None when every tag is in it. */
  function FirstInvalid(clean: seq<string>, validTags: set<string>): (r: Option<nat>)
    ensures r.None? <==> forall k :: 0 <= k < |clean| ==> clean[k] in validTags
    ensures r.Some? ==> r.value < |clean| && clean[r.value] !in validTags
    ensures r.Some? ==> forall k :: 0 <= k < r.value ==> clean[k] in validTags
  {
    if clean == [] then None
    else if clean[0] !in validTags then Some(0)
    else match FirstInvalid(clean[1..], validTags)
      case None => None
      case Some(i) => Some(i + 1)
  }

  /** `Recipe.validate_tags`. */
  function ValidateTags(tags: seq<string>, validTags: set<string>): (r: Result<seq<string>, TagError>)
    ensures r.Failure? <==> exists k :: 0 <= k < |tags| && Normalize(tags[k]) !in validTags
    ensures r.Success? ==> |r.value| == |tags|
    ensures r.Success? ==> forall k :: 0 <= k < |tags| ==>
      r.value[k] == Normalize(tags[k]) && r.value[k] in validTags
  {
    var clean := NormalizeAll(tags);
    match FirstInvalid(clean, validTags)
    case Some(i) => Failure(InvalidTag(clean[i]))
    case None => Success(clean)
  }

  /** On success the result has one tag per input tag, each the normalised
      input tag at the same position, and each in the vocabulary. */
  lemma ValidateTagsSuccess(tags: seq<string>, validTags: set<string>)
    requires ValidateTags(tags, validTags).Success?
    ensures |ValidateTags(tags, validTags).value| == |tags|
    ensures forall k :: 0 <= k < |tags| ==>
      ValidateTags(tags, validTags).value[k] == Normalize(tags[k]) &&
      Normalize(tags[k]) in validTags
  {
  }

  /** Validation fails exactly when some normalised tag is outside the
      vocabulary. */
  lemma ValidateTagsFailsIff(tags: seq<string>, validTags: set<string>)
    ensures ValidateTags(tags, validTags).Failure? <==>
      exists k :: 0 <= k < |tags| && Normalize(tags[k]) !in validTags
  {
    var clean := NormalizeAll(tags);
    var r := FirstInvalid(clean, validTags);
    if r.Some? {
      assert Normalize(tags[r.value]) !in validTags;
    } else {
      assert forall k :: 0 <= k < |tags| ==> Normalize(tags[k]) in validTags by {
        forall k | 0 <= k < |tags| ensures Normalize(tags[k]) in validTags {
          assert clean[k] in validTags;
        }
      }
    }
  }

  /** On failure the error names the first normalised tag, in list order,
      that is outside the vocabulary. */
  lemma ValidateTagsFirstFailure(tags: seq<string>, validTags: set<string>) returns (i: nat)
    requires ValidateTags(tags, validTags).Failure?
    ensures i < |tags|
    ensures ValidateTags(tags, validTags).error == InvalidTag(Normalize(tags[i]))
    ensures Normalize(tags[i]) !in validTags
    ensures forall k :: 0 <= k < i ==> Normalize(tags[k]) in validTags
  {
    i := FirstInvalid(NormalizeAll(tags), validTags).value;
  }

  /** A normalised tag is lower case and has no surrounding whitespace. */
  lemma NormalizeShape(t: string)
    ensures IsLowerCase(Normalize(t)) && IsStripped(Normalize(t))
  {
    var _, _ := StripSlice(Lower(t));
    StripKeepsLowerCase(Lower(t));
  }

  /** Every tag a successful validation returns is lower case and has no
      surrounding whitespace. */
  lemma ValidatedTagsShape(tags: seq<string>, validTags: set<string>)
    requires ValidateTags(tags, validTags).Success?
    ensures forall t :: t in ValidateTags(tags, validTags).value ==>
      IsLowerCase(t) && IsStripped(t)
  {
    forall t | t in ValidateTags(tags, validTags).value
      ensures IsLowerCase(t) && IsStripped(t)
    {
      var k :| 0 <= k < |tags| && NormalizeAll(tags)[k] == t;
      NormalizeShape(tags[k]);
    }
  }

  /** Normalising a normalised tag changes nothing. */
  lemma NormalizeIdempotent(t: string)
    ensures Normalize(Normalize(t)) == Normalize(t)
  {
    NormalizeShape(t);
    LowerFixed(Normalize(t));
    StripFixedIff(Normalize(t));
  }

  /** Validating a validated list succeeds and returns it unchanged. */
  lemma ValidateTagsIdempotent(tags: seq<string>, validTags: set<string>)
    requires ValidateTags(tags, validTags).Success?
    ensures ValidateTags(ValidateTags(tags, validTags).value, validTags)
      == ValidateTags(tags, validTags)
  {
    var clean := ValidateTags(tags, validTags).value;
    forall k | 0 <= k < |clean| ensures NormalizeAll(clean)[k] == clean[k] {
      NormalizeIdempotent(tags[k]);
    }
    assert NormalizeAll(clean) == clean;
    assert FirstInvalid(clean, validTags).None?;
  }

  /** The empty tag list validates, to the empty list. */
  lemma ValidateTagsEmpty(validTags: set<string>)
    ensures ValidateTags([], validTags) == Success([])
  {
  }
}
