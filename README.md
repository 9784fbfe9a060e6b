# Library project core in Dafny

This project models the small pieces of decision logic in the Django library
project. The rest of that code is framework glue. The pieces modelled are:

- **Middleware** (`middleware.dfy`). `HTTPSRedirectMiddleware` decides whether
  to redirect an insecure request and builds the `https://` target. On a
  response that passes through, it overwrites four fixed security headers and
  adds a `Strict-Transport-Security` value when HSTS is configured.
  `SecurityHeadersMiddleware` inserts five headers, each only where the
  response lacks it. The response is a class whose `headers` map the two
  middleware calls change in place.
- **Forms** (`forms.dfy`). `BookForm.clean_title` and `BookForm.clean_isbn`,
  and the `query` field of `SearchForm`. The field is modelled as the
  framework cleans it: strip, the required check, the character pattern, the
  100-character limit and the NUL check, followed by `clean_query`.
- **Models** (`models.dfy`). The `CustomUserManager` defaulting of
  `is_staff`, `is_superuser` and `is_active`, and its ordered checks. Also the
  borrow record's status default and `is_overdue`.
- **Views** (`views.dfy`, `roles.dfy`).
  - The autocomplete endpoint: its input guard, the cut to ten rows, and the
    loop that builds one `"title by author"` entry per row.
  - The book list: the `author` and `available` parameters, and newest-first
    ordering.
  - The search page: no books unless the form is valid.
  - The three role checks of the relationship app.
- **API serializer** (`serializers.dfy`). `validate_publication_year`.
- **Shared modules**.
  - `text.dfy`: Python's `strip`, `replace(..., 1)`, `in`, `isdigit`,
    case-insensitive containment and decimal formatting.
  - `sequences.dfy`: query-set filtering and slicing, over sequences of rows.
  - `wrappers.dfy`: `Option` and `Result`.

The models replace some inputs with explicit parameters:

- Django settings become a `Settings` value.
- The clock becomes a "today" or "current year" parameter.
- The downstream view becomes the response it returns.
- The database becomes a sequence of book rows.
- HTML escaping becomes a function parameter.

Python's Unicode-aware `isdigit`, `isspace` and `\s` are narrowed to ASCII:

- a digit is `0`–`9`;
- whitespace is the code points 9–13, 28–31 and 32.

## Model

| member | source | states |
|---|---|---|
| Middleware.EnforceHttps | advanced_features_and_security/LibraryProject/middleware.py:46-67 | A redirect target is produced exactly when SECURE_SSL_REDIRECT is set, the request is insecure and the path contains neither `/health/` nor `/ping/`. The target is the absolute URI with its first `http://` replaced. |
| Middleware.RedirectTarget | advanced_features_and_security/LibraryProject/middleware.py:55-56 | Only the first occurrence of `http://` becomes `https://`, and every other character is kept. A URI without `http://` is returned unchanged. |
| Middleware.RedirectToHttpsScheme | advanced_features_and_security/LibraryProject/middleware.py:55-56 | A URI that starts with `http://` redirects to `https://` followed by the same remainder. |
| Middleware.HttpResponse.PermanentRedirect | advanced_features_and_security/LibraryProject/middleware.py:65 | The redirect response has status 301 and its Location header is the target. |
| Middleware.HstsPolicyOf | advanced_features_and_security/LibraryProject/middleware.py:80-81 | An HSTS policy exists exactly when SECURE_HSTS_SECONDS is defined and positive. It carries that max-age and the two flags. |
| Middleware.DirectivesRoundTrip | advanced_features_and_security/LibraryProject/middleware.py:85-88 | Each combination of the two flags gives distinct directives that read back as those flags. |
| Middleware.HstsValue | advanced_features_and_security/LibraryProject/middleware.py:84-90 | The header value `max-age=N[; includeSubDomains][; preload]`, directives in that order, parses back to its policy, so the max-age and each flag are recoverable from it. |
| Middleware.HstsPartsRoundTrip | advanced_features_and_security/LibraryProject/middleware.py:84-88 | `max-age=`, the decimal max-age and the directives, joined, read back as the policy they were built from. |
| Middleware.SecuredHeaders | advanced_features_and_security/LibraryProject/middleware.py:74-90 | The four fixed headers get `nosniff`, `DENY`, `1; mode=block` and `same-origin`, overwriting earlier values. An existing Strict-Transport-Security value is kept. When the header is missing, it is added exactly when a policy exists. No other header changes or appears. |
| Middleware.AddSecurityHeaders | advanced_features_and_security/LibraryProject/middleware.py:69-92 | Changing the response in place leaves its headers equal to `Secured` of the old headers, and its status unchanged. |
| Middleware.HttpsRedirectCall | advanced_features_and_security/LibraryProject/middleware.py:18-33 | A redirected request gets a fresh 301 response, and the handler's response is untouched, with no headers added. Otherwise the handler's response is returned with `Secured` headers. |
| Middleware.DefaultHeadersInserted | advanced_features_and_security/LibraryProject/middleware.py:106-116 | All five header names are present afterwards. Existing values are kept, missing ones get their defaults, and no other header appears. |
| Middleware.WithDefaultHeadersIdempotent | advanced_features_and_security/LibraryProject/middleware.py:114-116 | Inserting the defaults twice equals inserting them once. |
| Middleware.SecurityHeadersCall | advanced_features_and_security/LibraryProject/middleware.py:102-118 | The loop over the five headers leaves the response's headers equal to `WithDefaultHeaders` of the old ones, with the status unchanged. |
| Text.StripIsSlice | advanced_features_and_security/LibraryProject/bookshelf/forms.py:24 | `strip` removes a whitespace prefix and a whitespace suffix and keeps the slice between them. |
| Text.StripIdempotent | advanced_features_and_security/LibraryProject/bookshelf/forms.py:55 | Stripping an already stripped string changes nothing. |
| Text.DecimalRoundTrip | advanced_features_and_security/LibraryProject/middleware.py:84 | The decimal text of the max-age reads back as the same number. |
| Sequences.FilterTwice | advanced_features_and_security/LibraryProject/bookshelf/views.py:76-82 | Chained query-set filters select the rows that satisfy both predicates, in order. |
| BookshelfForms.CleanTitle | advanced_features_and_security/LibraryProject/bookshelf/forms.py:22-27 | A title is accepted exactly when its stripped form has at least 2 characters. The stripped title is returned; otherwise the error is TitleTooShort. |
| BookshelfForms.CleanTitleIdempotent | advanced_features_and_security/LibraryProject/bookshelf/forms.py:24-27 | Cleaning an accepted title again gives the same result. |
| BookshelfForms.CleanIsbn | advanced_features_and_security/LibraryProject/bookshelf/forms.py:29-34 | An accepted ISBN comes back as the stripped input, with its hyphens and inner spaces kept. A rejection is IsbnNotNumeric. |
| BookshelfForms.CleanIsbnAccepts | advanced_features_and_security/LibraryProject/bookshelf/forms.py:31-33 | An ISBN is accepted exactly when the stripped input consists of digits, hyphens and spaces and contains at least one digit. |
| BookshelfForms.CleanIsbnAcceptedShape | advanced_features_and_security/LibraryProject/bookshelf/forms.py:31-33 | An accepted ISBN, once stripped, holds only digits, hyphens and spaces, and at least one digit. |
| BookshelfForms.CleanIsbnAcceptsShape | advanced_features_and_security/LibraryProject/bookshelf/forms.py:31-34 | A stripped ISBN of digits, hyphens and spaces that holds a digit is accepted. |
| BookshelfForms.CleanIsbnRejectsSeparatorsOnly | advanced_features_and_security/LibraryProject/bookshelf/forms.py:32-33 | An ISBN made only of hyphens and spaces is rejected, because `isdigit` is false on the empty string. |
| BookshelfForms.RemoveAll | advanced_features_and_security/LibraryProject/bookshelf/forms.py:32 | `replace(c, '')` leaves no `c`, adds no character, and every character other than `c` still occurs in the result. |
| BookshelfForms.RemoveAllCounts | advanced_features_and_security/LibraryProject/bookshelf/forms.py:32 | `replace(c, '')` keeps every other character as often as it occurred: the result is the input's multiset with `c` taken out. |
| BookshelfForms.PatternExcludesNul | advanced_features_and_security/LibraryProject/bookshelf/forms.py:47 | A value that matches the query pattern holds no NUL character. |
| BookshelfForms.QueryFieldClean | advanced_features_and_security/LibraryProject/bookshelf/forms.py:41-51 | The field accepts exactly the stripped values that are non-empty, made of allowed characters, and at most 100 long. It returns the stripped value. An empty value reports only the required error. Otherwise each failed check reports its own error, the invalid-characters error exactly when the pattern fails, the too-long error exactly when the value exceeds 100 characters and the NUL error exactly when the value holds one, and no other error appears. |
| BookshelfForms.CleanQuery | advanced_features_and_security/LibraryProject/bookshelf/forms.py:53-58 | A query is accepted exactly when it has at least 2 characters after stripping. The stripped query is returned; otherwise the error is QueryTooShort. |
| BookshelfForms.ValidateSearchSteps | advanced_features_and_security/LibraryProject/bookshelf/forms.py:41-58 | Field errors are reported as they are. `clean_query` then accepts the field's value unchanged, or rejects it as too short. |
| BookshelfForms.ValidateSearchAccepts | advanced_features_and_security/LibraryProject/bookshelf/forms.py:41-58 | A search is valid exactly when the stripped query has 2 to 100 characters, all from the allowed set. |
| BookshelfForms.ValidateSearch | advanced_features_and_security/LibraryProject/bookshelf/forms.py:41-58 | The field is cleaned before `clean_query`. A valid search yields the stripped query, at least two characters long, and an invalid one reports at least one error. |
| BookshelfForms.ValidateSearchIdempotent | advanced_features_and_security/LibraryProject/bookshelf/forms.py:55-58 | Submitting an accepted query again gives the same query. |
| BookshelfModels.BuildUser | advanced_features_and_security/LibraryProject/bookshelf/models.py:8-15 | An empty email fails with EmailRequired before any user is built. Otherwise the user has the given email, password and fields. |
| BookshelfModels.CreateUser | advanced_features_and_security/LibraryProject/bookshelf/models.py:17-20 | `is_staff` and `is_superuser` default to False, and values supplied by the caller are never overridden. The call fails exactly when the email is empty. |
| BookshelfModels.CreateSuperuser | advanced_features_and_security/LibraryProject/bookshelf/models.py:22-32 | Three flags default to True without overriding the caller's values. An `is_staff` that is not exactly True fails first, then the same for `is_superuser`, then an empty email. A created superuser has both flags True. |
| BookshelfModels.NewBorrowRecord | advanced_features_and_security/LibraryProject/bookshelf/models.py:90-101 | A new record has status `borrowed`, which is one of the three choices, and no return date. |
| BookshelfModels.IsOverdue | advanced_features_and_security/LibraryProject/bookshelf/models.py:114-116 | A record is overdue exactly when its status is `borrowed` and today is after its due date: neither the due date itself nor a day before it. |
| BookshelfModels.OverdueExactly | advanced_features_and_security/LibraryProject/bookshelf/models.py:114-116 | An overdue record is still borrowed and was not due today. A record due today is not overdue. A `returned` or `overdue` record is never reported overdue. |
| BookshelfModels.OverdueStaysOverdue | advanced_features_and_security/LibraryProject/bookshelf/models.py:116 | A record that is overdue today is overdue on every later day. |
| BookshelfModels.NewRecordOverdue | advanced_features_and_security/LibraryProject/bookshelf/models.py:114-116 | A new record is overdue on its creation day exactly when its due date is already past. |
| BookshelfViews.Param | advanced_features_and_security/LibraryProject/bookshelf/views.py:73 | The lookup gives a value exactly when the parameter was sent, and then that value. |
| BookshelfViews.SuggestionFor | advanced_features_and_security/LibraryProject/bookshelf/views.py:186-189 | An entry carries the row's id, and its text is the title, then ` by `, then the author. |
| BookshelfViews.AutocompleteQuery | advanced_features_and_security/LibraryProject/bookshelf/views.py:169-172 | The query is used exactly when the stripped `q` (empty if absent) has at least 2 characters. |
| BookshelfViews.AutocompleteRows | advanced_features_and_security/LibraryProject/bookshelf/views.py:178-181 | The first 10 matching rows (all of them when fewer match), each matching title or author, in query order. |
| BookshelfViews.BookAutocomplete | advanced_features_and_security/LibraryProject/bookshelf/views.py:164-191 | The results are empty when the guard refuses the query and hold at most 10 entries. Otherwise there is one entry per matched row, in row order. |
| BookshelfViews.AutocompleteSound | advanced_features_and_security/LibraryProject/bookshelf/views.py:178-189 | Every entry is built from a book that matches the escaped query. |
| BookshelfViews.ParseAvailable | advanced_features_and_security/LibraryProject/bookshelf/views.py:79-81 | A value is selected exactly for `true` or `false`, and it is True exactly for `true`. |
| BookshelfViews.AuthorStep | advanced_features_and_security/LibraryProject/bookshelf/views.py:73-76 | The author filter applies only to a non-empty parameter; otherwise the query set is unchanged. |
| BookshelfViews.AvailabilityStep | advanced_features_and_security/LibraryProject/bookshelf/views.py:79-82 | The availability filter applies only to `true` or `false`. After both steps, exactly the listed rows remain. |
| BookshelfViews.SortNewestFirst | advanced_features_and_security/LibraryProject/bookshelf/views.py:84 | `order_by('-created_at')` gives the same rows, as a permutation, ordered newest first. |
| BookshelfViews.NewestFirstOrdered | advanced_features_and_security/LibraryProject/bookshelf/views.py:84 | In the newest-first order, every row is at least as new as every row after it. |
| BookshelfViews.GetQueryset | advanced_features_and_security/LibraryProject/bookshelf/views.py:68-84 | The result is newest first and is a permutation of the rows kept by both filters. A book is in it exactly when it is in the table and passes both filters. |
| BookshelfViews.SafeSearchBooks | advanced_features_and_security/LibraryProject/bookshelf/views.py:23-53 | An empty GET leaves the form unbound. No books are shown unless the form is valid. A valid query shows exactly the books matching it in title, author or ISBN. |
| BookshelfViews.SearchShowsOnlyValidMatches | advanced_features_and_security/LibraryProject/bookshelf/views.py:28-43 | A book is shown only for a stripped query of 2 to 100 allowed characters that it matches. |
| RelationshipRoles.RolesAreExclusive | advanced_features_and_security/LibraryProject/relationship_app/views.py:14-21 | A user passes at most one of `is_admin`, `is_librarian` and `is_member`. |
| RelationshipRoles.IsAdmin | advanced_features_and_security/LibraryProject/relationship_app/views.py:14-15 | A user passes exactly when authenticated and holding a profile whose role is exactly `Admin`. An anonymous user or one without a profile fails. |
| RelationshipRoles.IsLibrarian | advanced_features_and_security/LibraryProject/relationship_app/views.py:17-18 | A user passes exactly when authenticated and holding a profile whose role is exactly `Librarian`. An anonymous user or one without a profile fails. |
| RelationshipRoles.IsMember | advanced_features_and_security/LibraryProject/relationship_app/views.py:20-21 | A user passes exactly when authenticated and holding a profile whose role is exactly `Member`. An anonymous user or one without a profile fails. |
| RelationshipRoles.RoleCountExact | advanced_features_and_security/LibraryProject/relationship_app/views.py:14-21 | A user passes exactly one check when authenticated, with a profile whose role is one of the three names; otherwise none. |
| RelationshipRoles.AnonymousHasNoRole | advanced_features_and_security/LibraryProject/relationship_app/views.py:14-21 | An unauthenticated user passes none of the checks. |
| RelationshipRoles.NoProfileNoRole | advanced_features_and_security/LibraryProject/relationship_app/views.py:14-21 | A user without a profile passes none of the checks. |
| RelationshipRoles.RoleMatchIsCaseSensitive | advanced_features_and_security/LibraryProject/relationship_app/views.py:15 | The role `admin` does not satisfy `is_admin`. |
| ApiSerializers.ValidatePublicationYear | advanced-api-project/api/serializers.py:9-13 | A year is rejected exactly when it is later than the current year. An accepted year is returned unchanged. |
| ApiSerializers.AcceptsUpToCurrentYear | advanced-api-project/api/serializers.py:11-13 | The current year and every earlier year are accepted; there is no lower bound. |
| ApiSerializers.AcceptanceIsStable | advanced-api-project/api/serializers.py:9-13 | A year accepted now stays accepted in every later year. |

## Left out

- Header names are compared exactly. Django compares response header names case-insensitively.
- Logging is not modelled. This covers `log_request_info` and the warning and info messages.
- The redirect response's default content type and body are not modelled. `request.build_absolute_uri` is an input.
- `normalize_email`, `set_password` and `save` are not modelled. The built user keeps the email as given.
- BookshelfModels.BuildUser: a `None` email is not modelled; the email is always a string, and only the empty string is falsy.
- An extra field named `email` or `password`, which raises a duplicate-argument error, is not modelled.
- Extra fields the user model does not know, which raise on construction, are not modelled.
- Unicode digits and whitespace are not modelled; only ASCII is.
- Case-insensitive matching (`icontains`) folds ASCII letters only, not the database collation.
- The clock is a parameter: "today" for `is_overdue`, the current year for the serializer.
- Dates are compared as (year, month, day); calendar validity is not checked.
- The database's row order for unordered query sets is not modelled; rows keep their sequence order.
- Ties under `order_by('-created_at')` are not modelled; the database leaves their order open, and the model keeps them stable.
- `select_related` and the list view's pagination (20 per page) are not modelled.
- `django.utils.html.escape` is a function parameter, not its definition.
- Only the last value of a repeated GET parameter is modelled.
- The order of Django's error-message list is not modelled; form errors are a set.
- BookForm's model-field checks are not modelled: the required check and the length limits (200 characters for the title, 13 for the ISBN) run before `clean_title` and `clean_isbn`, which are modelled on the value they receive.
- The permission and login decorators, `render`, JSON encoding and `messages` are not modelled.
- The create and edit views, and the `BorrowRecordForm` queryset setup, are not modelled; they are framework calls with no decision logic.
