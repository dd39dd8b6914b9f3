/** The `Note` record and the validation attributes on its properties. */
module NoteModel {
  import opened Base

  /** A row of the notes table, and also the body a client sends to create or
      update one. `None` is a JSON null or an absent property; `createdAt` is a UTC
      instant in ticks of 100 ns, like `DateTime.Ticks`. The `User` navigation
      property carries nothing beyond `userId` and is not represented. */
  datatype Note = Note(
    id: int,
    title: Option<string>,
    description: Option<string>,
    createdAt: int,
    userId: Option<string>)

  const TitleRequired := "Title is required"
  const TitleTooLong := "Title cannot be longer than 100 characters"
  const DescriptionRequired := "Description is required"

  /** The maximum of `[StringLength(100)]` on `Title`. */
  const TitleMaxLength := 100

  /** The messages of the validation attributes on `Note` that fail for `n`, in
      declaration order. Every attribute is evaluated: `[Required]` fails on a null
      or blank string, `[StringLength]` passes a null and counts UTF-16 code units. */
  function ValidationErrors(n: Note): (errs: seq<string>)
    ensures TitleRequired in errs <==> IsNullOrWhiteSpace(n.title)
    ensures TitleTooLong in errs <==> n.title.Some? && Utf16Length(n.title.value) > TitleMaxLength
    ensures DescriptionRequired in errs <==> IsNullOrWhiteSpace(n.description)
    ensures forall m :: m in errs ==> m == TitleRequired || m == TitleTooLong || m == DescriptionRequired
  {
    (if IsNullOrWhiteSpace(n.title) then [TitleRequired] else [])
    + (if n.title.Some? && Utf16Length(n.title.value) > TitleMaxLength then [TitleTooLong] else [])
    + (if IsNullOrWhiteSpace(n.description) then [DescriptionRequired] else [])
  }

  /** `ModelState.IsValid` for a `Note` body. */
  predicate IsValid(n: Note)
  {
    ValidationErrors(n) == []
  }

  /** A note is valid exactly when it has a non-blank title of at most 100 UTF-16
      code units and a non-blank description of any length. */
  lemma ValidIff(n: Note)
    ensures IsValid(n) <==>
      && n.title.Some? && !IsBlank(n.title.value) && Utf16Length(n.title.value) <= TitleMaxLength
      && n.description.Some? && !IsBlank(n.description.value)
  {
    var errs := ValidationErrors(n);
    if errs != [] {
      assert errs[0] in errs;
    }
  }

  /** The length rule accepts a title of exactly 100 code units and rejects one of 101. */
  lemma TitleLengthBoundary(n: Note)
    requires n.title.Some?
    ensures Utf16Length(n.title.value) == 100 ==> TitleTooLong !in ValidationErrors(n)
    ensures Utf16Length(n.title.value) == 101 ==> TitleTooLong in ValidationErrors(n)
  {
  }

  /** A missing title fails with "Title is required" and with nothing else about the title. */
  lemma MissingTitle(n: Note)
    requires n.title.None?
    ensures TitleRequired in ValidationErrors(n) && TitleTooLong !in ValidationErrors(n)
    ensures !IsValid(n)
  {
  }

  /** A missing description fails with "Description is required"; a present,
      non-blank description passes whatever its length. */
  lemma DescriptionRule(n: Note)
    ensures n.description.None? ==> DescriptionRequired in ValidationErrors(n)
    ensures n.description.Some? && !IsBlank(n.description.value) ==> DescriptionRequired !in ValidationErrors(n)
  {
  }

  /** Validity depends on the title and the description only. */
  lemma ValidityIgnoresMetadata(n: Note, m: Note)
    requires n.title == m.title && n.description == m.description
    ensures ValidationErrors(n) == ValidationErrors(m)
  {
  }
}
