# Cooking Sandbox: recipe tags and CORS origins

This project models the two pieces of logic in the Cooking Sandbox web
scaffold:

- **Recipe tag validation** (`Recipe.validate_tags`, src/models.py). Every
  incoming tag is lower-cased and then stripped of surrounding whitespace.
  If a normalised tag is not in the tag vocabulary, validation fails with a
  `ValueError` naming the first such tag. Otherwise the normalised list
  replaces the input. The vocabulary (`VALID_TAGS`, imported from
  `constants.recipie_tags`) is a parameter `validTags: set<string>`, because
  that module is not part of this model.
- **CORS origin parsing** (`Settings.allow_origins`,
  backend/src/settings.py). The comma-separated `ALLOW_ORIGINS` string is
  split on `,`, each piece is stripped, and the pieces left empty are
  dropped, in order.

Modules:

- `Wrappers` (wrappers.dfy): `Option` and `Result`.
- `Text` (text.dfy): Python's `str.lower()` and `str.strip()` on ASCII, with
  the facts both core files rely on. Whitespace is what Python's
  `str.isspace()` accepts in ASCII: tab, line feed, vertical tab, form feed,
  carriage return, the separators 0x1C-0x1F, and space.
- `Models` (models.dfy): `validate_tags`. `NormalizeAll` is the list
  comprehension that builds `clean`. `FirstInvalid` is the loop that raises on
  the first tag outside the vocabulary. `ValidateTags` returns
  `Success(clean)` or `Failure(InvalidTag(t))`. The raised exception becomes
  the `Failure` value.
- `Settings` (settings.dfy): the settings record and `allow_origins`.
  `ParseOrigins` is `NonEmpty(StripAll(SplitOnComma(csv)))`: the split, then
  `o.strip()` on each piece, then the comprehension's `if o.strip()` filter.
  `Join` (`",".join`) is the split's inverse and is used for the round trip.

## Model

| member | source | states |
|---|---|---|
| `Text.Lower` | src/models.py:31 | `t.lower()` keeps the length and lowers each character: A-Z become a-z, other characters are unchanged |
| `Text.LowerFixed` | src/models.py:31 | lowering a string with no upper-case letter returns it unchanged |
| `Text.TrimStartSuffix` | backend/src/settings.py:17 | the leading-whitespace cut keeps a suffix, drops only whitespace, and the kept part does not start with whitespace |
| `Text.TrimEndPrefix` | backend/src/settings.py:17 | the trailing-whitespace cut keeps a prefix, drops only whitespace, and the kept part does not end with whitespace |
| `Text.Strip` | backend/src/settings.py:17 | `strip()` returns a string no longer than its input with no whitespace at either end; `Text.StripSlice` adds that it is the one slice of the input with only whitespace cut away |
| `Text.StripSlice` | backend/src/settings.py:17 | `strip()` returns one slice `s[i..j]` of its input, everything outside the slice is whitespace, and the result has no whitespace at either end |
| `Text.StripFixedIff` | backend/src/settings.py:17 | `strip()` leaves a string unchanged exactly when it has no whitespace at either end |
| `Text.StripIdempotent` | backend/src/settings.py:17 | stripping twice equals stripping once |
| `Text.StripEmptyIff` | backend/src/settings.py:17 | `strip()` returns the empty string exactly when the input is all whitespace, so the filter `if o.strip()` drops exactly the blank pieces |
| `Text.StripKeepsCharacters` | backend/src/settings.py:17 | every character of a stripped string occurs in the original string |
| `Text.StripKeepsLowerCase` | src/models.py:31 | stripping a lower-case string leaves it lower case |
| `Models.Normalize` | src/models.py:31 | `t.lower().strip()` is lower case and has no surrounding whitespace; `Models.NormalizeIdempotent` shows that normalising it again changes nothing |
| `Models.NormalizeAll` | src/models.py:31 | `clean` has one entry per input tag, and entry k is `tags[k].lower().strip()` |
| `Models.FirstInvalid` | src/models.py:32-34 | the scan finds nothing exactly when every tag is in the vocabulary; otherwise it returns the first position whose tag is outside the vocabulary, with all earlier tags inside it |
| `Models.TagError.Message` | src/models.py:34 | the error message ends with the offending tag |
| `Models.ValidateTags` | src/models.py:29-35 | `validate_tags` fails exactly when some normalised tag is outside the vocabulary; on success the result is as long as the input, entry k is normalised tag k, and each entry is in the vocabulary; `Models.ValidateTagsFirstFailure` shows the error names the first such tag |
| `Models.ValidateTagsSuccess` | src/models.py:31-35 | on success the result is as long as the input, entry k is the normalised input tag k (order kept), and every entry is in the vocabulary |
| `Models.ValidateTagsFailsIff` | src/models.py:32-34 | validation fails exactly when some normalised tag is outside the vocabulary |
| `Models.ValidateTagsFirstFailure` | src/models.py:32-34 | on failure the error names the normalised tag at some position i that is outside the vocabulary, and every tag before i is inside it |
| `Models.NormalizeShape` | src/models.py:31 | a normalised tag is lower case and has no surrounding whitespace |
| `Models.ValidatedTagsShape` | src/models.py:31-35 | every tag returned on success is lower case and has no surrounding whitespace |
| `Models.NormalizeIdempotent` | src/models.py:31 | normalising a normalised tag changes nothing |
| `Models.ValidateTagsIdempotent` | src/models.py:31-35 | re-validating a successful result succeeds and returns the same list |
| `Models.ValidateTagsEmpty` | src/models.py:31-35 | the empty tag list validates, to the empty list |
| `Settings.SplitOnComma` | backend/src/settings.py:17 | `split(",")` yields exactly one more piece than there are commas, and no piece contains a comma |
| `Settings.JoinSplit` | backend/src/settings.py:17 | joining the pieces of the split with `,` gives back the input string |
| `Settings.SplitCommaFreePrefix` | backend/src/settings.py:17 | a comma-free prefix becomes part of the first piece of the split |
| `Settings.SplitJoin` | backend/src/settings.py:17 | splitting the `,`-join of one or more comma-free pieces gives back those pieces (the empty list joins to `""`, which splits to `[""]`) |
| `Settings.JoinCharacter` | backend/src/settings.py:17 | every non-comma character of a join lies in one of the joined pieces |
| `Settings.JoinKeepsPiece` | backend/src/settings.py:17 | every character of a piece occurs in the join |
| `Settings.StripAll` | backend/src/settings.py:17 | the comprehension's `o.strip()` keeps the number of pieces, and entry k is piece k stripped |
| `Settings.NonEmpty` | backend/src/settings.py:17 | the `if o.strip()` filter keeps no more strings than it is given; `Settings.NonEmptyOrder` shows it keeps exactly the non-empty strings, in order |
| `Settings.KeptPiecesSource` | backend/src/settings.py:17 | the k-th string the filter keeps is the input string at the k-th kept position |
| `Settings.KeptPiecesIncreasing` | backend/src/settings.py:17 | the kept positions strictly increase |
| `Settings.KeptPiecesComplete` | backend/src/settings.py:17 | every non-empty string's position is among the kept positions |
| `Settings.NonEmptyOrder` | backend/src/settings.py:17 | the filter keeps exactly the non-empty strings, in their original order |
| `Settings.NonEmptyMembers` | backend/src/settings.py:17 | every kept string is an input string and is not empty |
| `Settings.NonEmptyFixed` | backend/src/settings.py:17 | a list with no empty string passes the filter unchanged |
| `Settings.NonEmptyEmptyIff` | backend/src/settings.py:17 | the filter keeps nothing exactly when every string is empty |
| `Settings.ParseOrigins` | backend/src/settings.py:15-17 | `allow_origins` yields at most one more origin than there are commas; `Settings.ParseOriginsShape`, `Settings.ParseOriginsOrder` and `Settings.ParseOriginsRoundTrip` give its shape, order and round trip |
| `Settings.ParseOriginsShape` | backend/src/settings.py:17 | every parsed origin is non-empty, has no leading or trailing whitespace, and contains no comma |
| `Settings.ParseOriginsOrder` | backend/src/settings.py:17 | the origins are the stripped non-blank pieces of the split, in increasing piece order, with no non-blank piece left out |
| `Settings.ParseOriginsCount` | backend/src/settings.py:17 | there are at most one more origins than commas in the input |
| `Settings.StripAllFixed` | backend/src/settings.py:17 | pieces with no surrounding whitespace pass the strip step unchanged |
| `Settings.ParseEmptyString` | backend/src/settings.py:17 | the empty string parses to no origins |
| `Settings.ParseJoinOrigins` | backend/src/settings.py:17 | parsing the `,`-join of any list of origins gives back that list |
| `Settings.ParseOriginsRoundTrip` | backend/src/settings.py:17 | joining the parsed origins with `,` and parsing again gives the same list |
| `Settings.ParseOriginsEmptyIff` | backend/src/settings.py:17 | the result is empty exactly when the input holds only commas and whitespace, including the empty string |
| `Settings.DefaultOrigins` | backend/src/settings.py:13-17 | with no environment variable set, the settings' origins are exactly `["http://localhost:3000"]` |

## Left out

- Reading the environment (`os.getenv`, backend/src/settings.py:9-13) is process I/O. The origin string is an input to `ParseOrigins`, and `Defaults` holds the fallback values. `BaseSettings` also reads each field from the environment variable named after it (a set `ALLOW_ORIGINS_CSV` overrides the `ALLOW_ORIGINS` fallback); that lookup is not modelled either.
- The `int(...)` parse of `PORT` (backend/src/settings.py:11) depends on Python's integer grammar (signs, underscores, surrounding whitespace), which is not part of this model. The port is an `int` field.
- The `AnyHttpUrl` return annotation of `allow_origins` is not checked at run time, so origins are plain strings.
- `Text.Lower`: full Unicode case mapping is not modelled. Only A-Z are lowered, and every other character is kept.
- `Text.Strip`: Unicode whitespace beyond ASCII (such as U+0085, U+00A0 and U+2028) is not modelled. Only Python's ASCII whitespace is stripped.
- The pydantic machinery of src/models.py is left out: field declarations and type coercion (lines 10-27), `HttpUrl` validation, the float fields, and the `datetime.now(UTC)` default, which depends on the clock. Only the body of `validate_tags` is modelled. Whether the hook registers at all is not modelled: line 29 passes `pre=True`, a pydantic v1 keyword that v2's `field_validator` does not accept.
- `Ingredient` (src/models.py:10-13) has no logic beyond field presence.
- src/main.py (the FastAPI app, its hard-coded CORS list, the `GET /` route and `uvicorn.run`) is framework and network setup with no logic of its own.
- frontend/src/App.jsx is a static page.
