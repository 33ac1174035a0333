/** The FluentValidation validators of the category requests. Every rule in
    a chain is evaluated (the default cascade mode), so one value can produce
    several messages, in rule order. */
module CategoryValidators {
  import opened Wrappers
  import Strings
  import Requests
  import DataAnnotations

  const NameRequired: string := "Category Name is required"
  const NameTooLong: string := "Category Name must not exceed 15 characters"
  const IdRequired: string := "Category ID is required"

  datatype EditCategoryRequest = EditCategoryRequest(categoryID: int, categoryName: Option<string>, description: Option<string>, picture: Option<seq<bv8>>)

  /** `NotEmpty` on a string: null, empty and white-space strings fail. */
  predicate NotEmptyString(v: Option<string>) {
    !Strings.IsNullOrWhiteSpace(v)
  }

  /** `MaximumLength(n)` on `String.Length`, in UTF-16 code units: null passes. */
  predicate MaximumLength(v: Option<string>, n: nat) {
    v.None? || Strings.Utf16Length(v.value) <= n
  }

  /** The CategoryName chain: `NotEmpty`, `MaximumLength(15)`, `NotNull`. */
  function CategoryNameMessages(v: Option<string>): (messages: seq<string>)
    ensures messages == [] <==> v.Some? && !Strings.AllWhiteSpace(v.value) && Strings.Utf16Length(v.value) <= 15
    ensures v.None? ==> messages == [NameRequired, NameRequired]
    ensures v.Some? && Strings.AllWhiteSpace(v.value) && Strings.Utf16Length(v.value) <= 15 ==> messages == [NameRequired]
    ensures v.Some? && !Strings.AllWhiteSpace(v.value) && Strings.Utf16Length(v.value) > 15 ==> messages == [NameTooLong]
    ensures forall m :: m in messages ==> m == NameRequired || m == NameTooLong
  {
    (if NotEmptyString(v) then [] else [NameRequired])
      + (if MaximumLength(v, 15) then [] else [NameTooLong])
      + (if v.Some? then [] else [NameRequired])
  }

  /** AddCategoryValidator: only CategoryName has rules. */
  function ValidateAdd(r: Requests.AddCategoryRequest): (messages: seq<string>)
    ensures messages == [] <==> Requests.Present(r.categoryName) && Requests.AtMost(r.categoryName, 15)
    ensures r.categoryName.None? ==> messages == [NameRequired, NameRequired]
  {
    CategoryNameMessages(r.categoryName)
  }

  /** EditCategoryValidator: `NotEmpty` on the `int` CategoryID fails only for
      0, its default, and `NotNull` on it never fails; then the CategoryName
      chain. */
  function ValidateEdit(r: EditCategoryRequest): (messages: seq<string>)
    ensures messages == [] <==> r.categoryID != 0 && Requests.Present(r.categoryName) && Requests.AtMost(r.categoryName, 15)
    ensures r.categoryID == 0 ==> |messages| > 0 && messages[0] == IdRequired
    ensures r.categoryID != 0 ==> messages == CategoryNameMessages(r.categoryName)
  {
    (if r.categoryID != 0 then [] else [IdRequired]) + CategoryNameMessages(r.categoryName)
  }

  /** The validator agrees with the `[Required] [MaxLength(15)]` annotations
      of the add request, message by message: it says the name is required
      exactly when `[Required]` fails, and that it is too long exactly when
      `[MaxLength(15)]` fails, so both accept the same names. */
  lemma ValidatorAgreesWithAnnotations(r: Requests.AddCategoryRequest)
    ensures NameRequired in ValidateAdd(r) <==>
      DataAnnotations.FieldError("CategoryName", DataAnnotations.Required) in Requests.ValidateAddCategory(r)
    ensures NameTooLong in ValidateAdd(r) <==>
      DataAnnotations.FieldError("CategoryName", DataAnnotations.MaxLength(15)) in Requests.ValidateAddCategory(r)
    ensures ValidateAdd(r) == [] <==> Requests.ValidateAddCategory(r) == []
  {
  }

  /** The limit is on code units: a non-blank name of at most 15 code units
      passes, and any longer one gets exactly the length message. */
  lemma {:induction false} NameLengthBoundary(n: string)
    requires !Strings.AllWhiteSpace(n)
    ensures Strings.Utf16Length(n) <= 15 ==> ValidateAdd(Requests.AddCategoryRequest(Some(n), None, None)) == []
    ensures Strings.Utf16Length(n) > 15 ==> ValidateAdd(Requests.AddCategoryRequest(Some(n), None, None)) == [NameTooLong]
  {
  }

  /** A non-blank name of 15 characters from the Basic Multilingual Plane
      passes. */
  lemma {:induction false} FifteenBmpCharactersPass(n: string)
    requires |n| == 15 && !Strings.AllWhiteSpace(n)
    requires forall i :: 0 <= i < |n| ==> n[i] as int <= 0xFFFF
    ensures ValidateAdd(Requests.AddCategoryRequest(Some(n), None, None)) == []
  {
    Strings.BmpLength(n);
  }

  /** Eight characters outside the Basic Multilingual Plane (emoji, say) are
      sixteen code units, so such a name is already too long. */
  lemma {:induction false} EightAstralCharactersTooLong(n: string)
    requires |n| >= 8
    requires forall i :: 0 <= i < |n| ==> n[i] as int > 0xFFFF
    ensures ValidateAdd(Requests.AddCategoryRequest(Some(n), None, None)) == [NameTooLong]
  {
    Strings.AstralLength(n);
    assert !Strings.IsWhiteSpace(n[0]);
  }

}
