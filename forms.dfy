/**
 * The validation rules of the bookshelf forms: BookForm.clean_title,
 * BookForm.clean_isbn, and SearchForm's `query` field (declared length
 * limit, required flag and character pattern) followed by clean_query.
 */
module BookshelfForms {
  import opened Wrappers
  import opened Text

  /** The validation errors the forms raise. */
  datatype FormError =
    | TitleTooShort           // "Title must be at least 2 characters long."
    | IsbnNotNumeric          // "ISBN must contain only numbers and hyphens."
    | QueryRequired           // the field is required and was empty
    | QueryTooLong            // more than 100 characters
    | QueryInvalidCharacters  // "Search query contains invalid characters."
    | QueryNullCharacter      // the framework's check against NUL characters
    | QueryTooShort           // "Search query must be at least 2 characters long."

  // ---------------------------------------------------------------------
  // BookForm
  // ---------------------------------------------------------------------

  /** BookForm.clean_title: the stripped title, rejected when shorter than
      two characters. */
  function CleanTitle(title: string): (r: Result<string, FormError>)
    ensures r.Success? <==> |Strip(title)| >= 2
    ensures r.Success? ==> r.value == Strip(title)
    ensures r.Failure? ==> r.error == TitleTooShort
  {
    var t := Strip(title);
    if |t| < 2 then Failure(TitleTooShort) else Success(t)
  }

  /** Cleaning an accepted title again returns it unchanged. */
  lemma {:induction false} CleanTitleIdempotent(title: string)
    requires CleanTitle(title).Success?
    ensures CleanTitle(CleanTitle(title).value) == CleanTitle(title)
  {
    var t := Strip(title);
    assert CleanTitle(title) == Success(t);
    StripIdempotent(title);
    assert Strip(t) == t;
  }

  /** The characters clean_isbn lets through: digits, hyphens and spaces. */
  predicate IsbnCharacter(c: char) {
    IsDigit(c) || c == '-' || c == ' '
  }

  /** BookForm.clean_isbn: strip, delete every hyphen and space, and require
      the rest to pass `isdigit`; the stripped input (separators kept) is
      what is returned. */
  function CleanIsbn(isbn: string): (r: Result<string, FormError>)
    ensures r.Success? ==> r.value == Strip(isbn)
    ensures r.Failure? ==> r.error == IsbnNotNumeric
  {
    var stripped := Strip(isbn);
    if !IsDigits(RemoveAll(RemoveAll(stripped, '-'), ' ')) then Failure(IsbnNotNumeric)
    else Success(stripped)
  }

  /** An accepted ISBN, once stripped, holds only digits, hyphens and
      spaces, and at least one digit. */
  lemma {:induction false} CleanIsbnAcceptedShape(isbn: string)
    requires CleanIsbn(isbn).Success?
    ensures var s := Strip(isbn);
      (forall i :: 0 <= i < |s| ==> IsbnCharacter(s[i]))
      && (exists i :: 0 <= i < |s| && IsDigit(s[i]))
  {
    var s := Strip(isbn);
    var digits := RemoveAll(RemoveAll(s, '-'), ' ');
    forall i | 0 <= i < |s|
      ensures IsbnCharacter(s[i])
    {
      if s[i] != '-' && s[i] != ' ' {
        assert s[i] in RemoveAll(s, '-');
        assert s[i] in digits;
      }
    }
    assert digits[0] in RemoveAll(s, '-');
    var k :| 0 <= k < |s| && s[k] == digits[0];
    assert IsDigit(s[k]);
  }

  /** An ISBN whose stripped form holds only digits, hyphens and spaces, and
      at least one digit, is accepted. */
  lemma {:induction false} CleanIsbnAcceptsShape(isbn: string)
    requires var s := Strip(isbn);
      (forall i :: 0 <= i < |s| ==> IsbnCharacter(s[i]))
      && (exists i :: 0 <= i < |s| && IsDigit(s[i]))
    ensures CleanIsbn(isbn).Success?
  {
    var s := Strip(isbn);
    var digits := RemoveAll(RemoveAll(s, '-'), ' ');
    var k :| 0 <= k < |s| && IsDigit(s[k]);
    assert s[k] in RemoveAll(s, '-');
    assert s[k] in digits;
    forall i | 0 <= i < |digits|
      ensures IsDigit(digits[i])
    {
      assert digits[i] in RemoveAll(s, '-');
    }
  }

  /** clean_isbn accepts exactly the inputs whose stripped form consists of
      digits, hyphens and spaces and holds at least one digit. */
  lemma {:induction false} CleanIsbnAccepts(isbn: string)
    ensures CleanIsbn(isbn).Success? <==>
      var s := Strip(isbn);
      (forall i :: 0 <= i < |s| ==> IsbnCharacter(s[i]))
      && (exists i :: 0 <= i < |s| && IsDigit(s[i]))
  {
    if CleanIsbn(isbn).Success? {
      CleanIsbnAcceptedShape(isbn);
    }
    var s := Strip(isbn);
    if (forall i :: 0 <= i < |s| ==> IsbnCharacter(s[i]))
       && (exists i :: 0 <= i < |s| && IsDigit(s[i])) {
      CleanIsbnAcceptsShape(isbn);
    }
  }

  /** A value made only of hyphens and spaces (after stripping) is rejected. */
  lemma {:induction false} CleanIsbnRejectsSeparatorsOnly(isbn: string)
    requires forall i :: 0 <= i < |Strip(isbn)| ==> Strip(isbn)[i] == '-' || Strip(isbn)[i] == ' '
    ensures CleanIsbn(isbn).Failure?
  {
    CleanIsbnAccepts(isbn);
  }

  /** Python's `s.replace(c, '')` for one character `c`. */
  function RemoveAll(s: string, c: char): (r: string)
    ensures |r| <= |s|
    ensures c !in r
    ensures forall x :: x in r ==> x in s
    ensures forall x :: x in s && x != c ==> x in r
  {
    if s == [] then []
    else (if s[0] == c then [] else [s[0]]) + RemoveAll(s[1..], c)
  }

  /** `replace(c, '')` keeps every other character as often as it occurs:
      the result is the input with all copies of `c` taken out. */
  lemma {:induction false} RemoveAllCounts(s: string, c: char)
    ensures multiset(RemoveAll(s, c)) == multiset(s)[c := 0]
  {
    if s != [] {
      RemoveAllCounts(s[1..], c);
      assert s == [s[0]] + s[1..];
    }
  }

  // ---------------------------------------------------------------------
  // SearchForm
  // ---------------------------------------------------------------------

  /** The declared `max_length` of the query field. */
  const MaxQueryLength := 100

  /** One character of the pattern `^[a-zA-Z0-9\s\-\.',!?]+$`. */
  predicate QueryCharacter(c: char) {
    IsLetter(c) || IsDigit(c) || IsSpace(c)
    || c == '-' || c == '.' || c == '\'' || c == ',' || c == '!' || c == '?'
  }

  /** The whole string matches the query pattern: one or more allowed
      characters. */
  predicate MatchesQueryPattern(s: string) {
    |s| > 0 && forall i :: 0 <= i < |s| ==> QueryCharacter(s[i])
  }

  /** A value matching the pattern holds no NUL character. */
  lemma {:induction false} PatternExcludesNul(v: string)
    requires MatchesQueryPattern(v)
    ensures '\0' !in v
  {
  }

  /** The errors of the three validators run on a non-empty value: each
      check that fails contributes its own error. */
  function QueryValidatorErrors(v: string): (errors: set<FormError>)
    ensures QueryInvalidCharacters in errors <==> !MatchesQueryPattern(v)
    ensures QueryTooLong in errors <==> |v| > MaxQueryLength
    ensures QueryNullCharacter in errors <==> '\0' in v
    ensures errors <= {QueryInvalidCharacters, QueryTooLong, QueryNullCharacter}
  {
    (if MatchesQueryPattern(v) then {} else {QueryInvalidCharacters})
    + (if |v| > MaxQueryLength then {QueryTooLong} else {})
    + (if '\0' in v then {QueryNullCharacter} else {})
  }

  /** Cleaning the `query` field itself: the framework strips the raw value
      (an absent value reads as empty), rejects an empty one as required,
      then runs the pattern, the length limit and the NUL check and reports
      every one that fails. */
  function QueryFieldClean(raw: Option<string>): (r: Result<string, set<FormError>>)
    ensures var v := Strip(raw.GetOr(""));
      r.Success? <==> MatchesQueryPattern(v) && |v| <= MaxQueryLength
    ensures r.Success? ==> r.value == Strip(raw.GetOr(""))
    ensures r.Failure? ==> r.error != {}
    ensures var v := Strip(raw.GetOr(""));
      v == "" ==> r == Failure({QueryRequired})
    ensures var v := Strip(raw.GetOr(""));
      r.Failure? ==>
        && (QueryRequired in r.error <==> v == "")
        && (QueryInvalidCharacters in r.error <==> v != "" && !MatchesQueryPattern(v))
        && (QueryTooLong in r.error <==> v != "" && |v| > MaxQueryLength)
        && (QueryNullCharacter in r.error <==> v != "" && '\0' in v)
        && r.error <= {QueryRequired, QueryInvalidCharacters, QueryTooLong, QueryNullCharacter}
  {
    var v := Strip(raw.GetOr(""));
    if v == "" then Failure({QueryRequired})
    else
      var errors := QueryValidatorErrors(v);
      if errors == {} then Success(v)
      else
        assert MatchesQueryPattern(v) ==> '\0' !in v by {
          if MatchesQueryPattern(v) { PatternExcludesNul(v); }
        }
        Failure(errors)
  }

  /** SearchForm.clean_query: strip again and reject fewer than two
      characters. */
  function CleanQuery(query: string): (r: Result<string, FormError>)
    ensures r.Success? <==> |Strip(query)| >= 2
    ensures r.Success? ==> r.value == Strip(query)
    ensures r.Failure? ==> r.error == QueryTooShort
  {
    var q := Strip(query);
    if |q| < 2 then Failure(QueryTooShort) else Success(q)
  }

  /** SearchForm validation of the submitted `query` value: the field is
      cleaned first and clean_query runs only on a cleaned value. The
      accepted query is the stripped input, at least two characters long,
      and a rejection names at least one error. */
  function ValidateSearch(raw: Option<string>): (r: Result<string, set<FormError>>)
    ensures r.Success? ==> r.value == Strip(raw.GetOr("")) && |r.value| >= 2
    ensures r.Failure? ==> r.error != {}
  {
    StripIdempotent(raw.GetOr(""));
    match QueryFieldClean(raw)
    case Failure(errors) => Failure(errors)
    case Success(v) =>
      match CleanQuery(v)
      case Failure(e) => Failure({e})
      case Success(q) => Success(q)
  }

  /** What clean_query sees has already been stripped, so it returns the
      field's value unchanged or rejects it as too short. */
  lemma {:induction false} ValidateSearchSteps(raw: Option<string>)
    ensures QueryFieldClean(raw).Failure? ==> ValidateSearch(raw) == Failure(QueryFieldClean(raw).error)
    ensures QueryFieldClean(raw).Success? ==>
      var v := QueryFieldClean(raw).value;
      ValidateSearch(raw) == if |v| >= 2 then Success(v) else Failure({QueryTooShort})
  {
    StripIdempotent(raw.GetOr(""));
  }

  /** A search query is accepted exactly when its stripped form has between
      2 and 100 characters, all from the allowed set. */
  lemma {:induction false} ValidateSearchAccepts(raw: Option<string>)
    ensures ValidateSearch(raw).Success? <==>
      2 <= |Strip(raw.GetOr(""))| <= MaxQueryLength && MatchesQueryPattern(Strip(raw.GetOr("")))
  {
    ValidateSearchSteps(raw);
  }

  /** An accepted query submitted again is accepted as itself. */
  lemma {:induction false} ValidateSearchIdempotent(raw: Option<string>)
    requires ValidateSearch(raw).Success?
    ensures ValidateSearch(Some(ValidateSearch(raw).value)) == ValidateSearch(raw)
  {
    var q := ValidateSearch(raw).value;
    assert q == Strip(raw.GetOr(""));
    StripIdempotent(raw.GetOr(""));
    assert Strip(Some(q).GetOr("")) == q;
    ValidateSearchAccepts(raw);
    ValidateSearchAccepts(Some(q));
    assert ValidateSearch(Some(q)).Success?;
  }
}
