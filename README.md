# Field validators of the Author and Post records

The program stores two records, Author and Post. Six of their fields are
validated whenever they are assigned: an Author's `name` and
`phone_number`, and a Post's `content`, `title`, `summary` and `category`.
The `id` and the timestamps are never checked. On each assignment the
validator either accepts the value or raises a `ValueError` with a fixed
message:

- `Author.validates_authors_fields` checks `name` and `phone_number`.
  A name must not be blank and must not already belong to a stored author.
  A phone number has its spaces removed and must then be exactly ten digits.
  The compacted form is what gets stored.
- `Post.validates_posts_fields` checks `content`, `title`, `summary` and
  `category`. Content needs at least 250 characters other than spaces.
  A summary may have at most 250 of them. A title must contain one of the
  marker phrases "Won't Believe", "Secret", "Top" or "Guess". A category
  must be exactly "Fiction" or "Non-Fiction". Accepted values are returned
  unchanged.

The model is pure Dafny: datatypes, functions and lemmas. The validators
change no state, so there are no classes or loops.

- `results.dfy` (module `Results`): `Result = Ok(value) | Err(msg)`. `Err`
  carries the message of the `ValueError`.
- `text.dfy` (module `Text`): the Python string operations the validators
  use. These are `replace(' ', '')` (`RemoveSpaces`), `strip()` (`Strip`),
  `isdigit()` (`IsDigits`), the substring test `in` (`Contains`),
  `any(term in s for term in terms)` (`ContainsAny`) and `join` (`Join`).
  `RemoveSpaces`, `Strip`, `Contains` and `ContainsAny` come with contracts
  or lemmas that tie them to an independent description: a character count, a
  multiset, the "all whitespace" predicate, or an occurrence index.
  `IsDigits` and `IsWhitespace` are definitions. `Join` is used only to
  build the title message; the lemma about it says that every item occurs
  in the joined string, and the message itself is evaluated on the marker
  list.
- `author.dfy` (module `AuthorValidation`): the name and phone branches and
  the dispatch on the field. The storage lookup `Author.query.filter_by(name
  = ...).first()` becomes a parameter, `existing: set<string>`, which holds
  the names already stored.
- `post.dfy` (module `PostValidation`): the content, title, summary and
  category branches and the dispatch on the field.

Each dispatch function promises that any value it accepts satisfies that
field's accepted-value predicate (`ValidAuthorValue`, `ValidPostValue`).
This holds of each value at the moment it is assigned. A field that is
never assigned is stored without a check: `phone_number`, `content`,
`summary` and `category` are nullable columns (server/models.py:10, 51-53),
so a record created without them is committed with them NULL. The model has
no storage, so it also does not follow a name after its own record is
stored, when `v !in existing` stops holding of it.

The model follows the code literally on these points, which a quick reading
may get wrong:

- Only the space character `' '` is removed before the phone, content and
  summary checks. Tabs, newlines and other whitespace are kept, so a tab
  in a phone number fails the digit check.
- The title's blank guard is `not title and title.strip() == ''`. It fires
  for `""` alone. A non-empty, whitespace-only title passes the guard. It is
  then rejected with the terms message, not with "Each post must have a
  title!". `PostValidation.TitleRequiredOnlyForEmpty` proves this.
- The error raised is Python's `ValueError`, not a dedicated error type.
- The digit check runs before the length check. An empty or all-space phone
  number therefore gets "Phone number can only contain digits.", because
  `"".isdigit()` is false.

## Model

| member | source | states |
|---|---|---|
| `Text.RemoveSpaces` | server/models.py:32 | the compacted string is no longer than the input and contains no `' '` |
| `Text.RemoveSpacesChars` | server/models.py:32 | a character is in the compacted string iff it is in the input and is not `' '` |
| `Text.RemoveSpacesMultiset` | server/models.py:63 | compaction keeps every character other than `' '` with its multiplicity and drops every `' '` |
| `Text.RemoveSpacesLength` | server/models.py:65 | the compacted length equals the number of characters other than `' '` (`NonSpaceCount`) |
| `Text.RemoveSpacesConcat` | server/models.py:86 | compacting a concatenation compacts each part, so the remaining characters keep their order |
| `Text.RemoveSpacesIdentity` | server/models.py:32 | a string is left unchanged by compaction iff it has no `' '` |
| `Text.RemoveSpacesIdempotent` | server/models.py:32 | compacting twice is the same as compacting once |
| `Text.TrimStart` | server/models.py:20 | removes exactly the longest all-whitespace prefix: the result is a suffix, everything removed is whitespace, and the result does not start with whitespace |
| `Text.TrimEnd` | server/models.py:20 | removes exactly the longest all-whitespace suffix: the result is a prefix, everything removed is whitespace, and the result does not end with whitespace |
| `Text.Strip` | server/models.py:20 | `strip()` is a slice of its input with only whitespace before and after it, and it neither starts nor ends with whitespace |
| `Text.StripEmptyIff` | server/models.py:20 | `s.strip() == ''` iff every character of `s` is whitespace |
| `Text.IsWhitespace` | server/models.py:20 | the characters `strip()` removes, which are those for which `str.isspace()` holds (a definition) |
| `Text.IsDigits` | server/models.py:34 | `isdigit()`: false on `""`, otherwise every character is an ASCII digit (a definition) |
| `Text.Contains` | server/models.py:78 | Python's `sub in s` as a left-to-right scan, characterised by `ContainsIff` |
| `Text.ContainsIff` | server/models.py:78 | `sub in s` iff `sub` occurs in `s` at some index |
| `Text.ContainsAny` | server/models.py:78 | `any(term in s for term in terms)` holds iff one of the terms occurs in `s` at some index |
| `Text.MissingCharNotContained` | server/models.py:78 | `s` cannot contain a substring with a character that `s` lacks |
| `Text.Join` | server/models.py:79 | Python's `sep.join(items)`; `JoinNamesItems` states what it contains |
| `Text.JoinFour` | server/models.py:79 | joining four items puts the separator between each adjacent pair and nowhere else |
| `Text.JoinNamesItems` | server/models.py:79 | the joined string starts with the first item, and every item occurs in it |
| `AuthorValidation.ValidateName` | server/models.py:17-27 | an accepted name is returned unchanged; a rejection carries one of the two name messages |
| `AuthorValidation.NameAccepted` | server/models.py:20-27 | a name is accepted iff it is not blank and not among the stored names, and is then returned unchanged; a blank name gets "Author name is required!" whatever storage holds; a non-blank stored name gets "Author name already exists." |
| `AuthorValidation.NameBlankIgnoresStorage` | server/models.py:20-21 | the blank check comes before the lookup: whether a name is rejected as blank is the same against any two sets of stored names |
| `AuthorValidation.ValidatePhone` | server/models.py:29-40 | an accepted phone number is returned as the input with every `' '` removed, with no space left; a rejection carries one of the two phone messages |
| `AuthorValidation.PhoneAccepted` | server/models.py:32-40 | a phone number is accepted iff it has exactly 10 characters other than `' '` and all of them are ASCII digits; the stored value is the compacted input, 10 long, all digits, no spaces |
| `AuthorValidation.PhoneErrors` | server/models.py:34-38 | the digit check before the length check: "can only contain digits" iff some character other than `' '` is not a digit or there is no such character; "must be exactly 10 digits" iff the characters other than `' '` are all digits and there are neither zero nor ten of them |
| `AuthorValidation.PhoneIdempotent` | server/models.py:32-40 | re-validating an accepted phone number accepts it again and returns it unchanged |
| `AuthorValidation.PhoneIgnoresSpace` | server/models.py:32 | inserting a space anywhere in a phone number changes neither the verdict nor the stored value |
| `AuthorValidation.PhoneOfDigits` | server/models.py:34-40 | a digit string without spaces is stored as it is when ten long and gets the length message otherwise |
| `AuthorValidation.PhoneExampleCompacted` | server/models.py:32-40 | "555 123 4567" is accepted and stored as "5551234567" |
| `AuthorValidation.PhoneExampleHyphens` | server/models.py:34-35 | "555-123-4567" is rejected with the digits message, because hyphens are not removed |
| `AuthorValidation.PhoneExamplesEmpty` | server/models.py:32-35 | "" and "   " are rejected with the digits message, not the length message |
| `AuthorValidation.PhoneExamplesWrongLength` | server/models.py:37-38 | nine or eleven digits are rejected with the length message |
| `AuthorValidation.ValidateAuthorField` | server/models.py:15-40 | every value the Author validator accepts is valid for its field: a name that is not blank and not stored, returned as given, or a phone number of exactly ten ASCII digits, returned as the compacted input; a rejection carries one of that field's two messages |
| `AuthorValidation.AuthorFieldIdempotent` | server/models.py:15-40 | re-validating an accepted Author value against the same storage accepts it again and returns it unchanged |
| `PostValidation.ValidateContent` | server/models.py:60-68 | accepted content is returned as given, spaces included; a rejection carries the content message |
| `PostValidation.ContentAccepted` | server/models.py:63-66 | content is accepted iff it has at least 250 characters other than `' '` (250 passes, 249 fails) |
| `PostValidation.ValidateSummary` | server/models.py:83-91 | an accepted summary is returned as given; a rejection carries the summary message |
| `PostValidation.SummaryAccepted` | server/models.py:86-89 | a summary is accepted iff it has at most 250 characters other than `' '` (250 passes, 251 fails) |
| `PostValidation.LengthChecksIgnoreSpace` | server/models.py:63-65 | inserting a space does not change whether content or a summary is accepted |
| `PostValidation.HasClickBait` | server/models.py:73-78 | `any(term in title for term in click_bait)` over the four markers holds iff some marker phrase occurs in the title at some index |
| `PostValidation.ValidateTitle` | server/models.py:70-81 | an accepted title is returned unchanged; a rejection carries the "must have a title" or the terms message |
| `PostValidation.TitleAccepted` | server/models.py:73-81 | a title is accepted iff one of the four marker phrases occurs in it, and is then returned unchanged; the empty title gets "Each post must have a title!"; any other rejected title gets the terms message |
| `PostValidation.BlankHasNoMarker` | server/models.py:73-78 | a whitespace-only title contains none of the marker phrases |
| `PostValidation.TitleRequiredOnlyForEmpty` | server/models.py:75-79 | the blank guard as written rejects "" and nothing else; a non-empty whitespace-only title gets the terms message instead |
| `PostValidation.TitleTermsMessage` | server/models.py:73-79 | the terms message is the constant prefix `TermsPrefix` ("Title must have at least one of the following terms: ") followed by the markers joined by ", ", that is "Won't Believe, Secret, Top, Guess" |
| `PostValidation.TitleTermsNamesMarkers` | server/models.py:79 | the terms message contains each of the four marker phrases |
| `PostValidation.TitleWithMarker` | server/models.py:78-81 | a title containing one of the markers is accepted unchanged |
| `PostValidation.TitleWithoutMarker` | server/models.py:75-79 | a non-empty title containing none of the markers gets the terms message |
| `PostValidation.TitleExampleAccepted` | server/models.py:78-81 | "Top 10 Tips" is accepted unchanged |
| `PostValidation.TitleExampleRejected` | server/models.py:78-79 | "Hello World" is rejected with the terms message |
| `PostValidation.ValidateCategory` | server/models.py:93-101 | an accepted category is returned unchanged; a rejection carries the category message |
| `PostValidation.CategoryAccepted` | server/models.py:96-99 | a category is accepted iff it is exactly "Fiction" or "Non-Fiction"; "fiction" is rejected |
| `PostValidation.ValidatePostField` | server/models.py:58-101 | every value the Post validator accepts is returned unchanged and is valid for its field; a rejection carries that field's message, or for a title also the "must have a title" one |
| `PostValidation.PostFieldIdempotent` | server/models.py:58-101 | re-validating an accepted Post value accepts it again and returns it unchanged |

## Left out

- The SQLAlchemy declarations are not modelled: columns, table names, the `db` object and the `@validates` hook (server/models.py:1-12, 46-55). They are ORM configuration. The hook stores the returned value; the model stops at the returned `Result`.
- The database lookup at server/models.py:23 is not modelled. It becomes the parameter `existing`, and a name counts as taken iff it is in that set.
- The race between the uniqueness check and the later commit is not modelled, because the model has no storage and no concurrency.
- The timestamps `created_at` and `updated_at` are left out. They are set by the database.
- `__repr__` of both records is left out. It is formatting only.
- `str(value)` coercion of non-string values (`None` becoming `"None"`) is left out, and so is the `AttributeError` a `None` title raises. Every input is a string.
- The fall-through for keys other than the registered ones is left out: the Python method would return `None`. The decorators register exactly the modelled fields (`AuthorField`, `PostField`), so no other key reaches the validators.
- `isdigit()` accepts only the ASCII digits '0' to '9' here. Python also accepts other Unicode digits, such as superscripts and digits of other scripts.
- `strip()` and "blank" use the fixed whitespace set of `Text.IsWhitespace`. It is taken to be the set Python's `str.isspace()` accepts: ASCII `\t \n \v \f \r` and space, `\x1c` to `\x1f`, `\x85`, `\xa0`, `\u1680`, `\u2000` to `\u200a`, `\u202f`, `\u205f`, `\u3000`, `\u2028` and `\u2029`. Of these, `\x1c` to `\x1f` are the ASCII information separators and `\x85` is NEL (next line). `\xa0`, `\u1680`, `\u2000` to `\u200a`, `\u202f`, `\u205f` and `\u3000` are the Unicode space separators. `\u2028` and `\u2029` are the line and paragraph separators. It is not derived from the Unicode database.
