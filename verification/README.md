# GOLocator validators and computations, in Dafny

GOLocator stores users and the places they have been. It has a command-line
client (`goloc`) and two HTTP services. Its logic outside the HTTP handlers,
the ORM queries and flag handling is a few string validators and two small
computations. This project models them and proves what they accept, what
they return and how they relate:

- `validateCoordinates`. It turns `"lat,lon"` into two numbers. There is one
  copy in the client and a byte-identical copy in the user service.
  - It matches the string against an anchored regular expression, splits it
    on `,`, parses both parts with `strconv.ParseFloat` and range-checks them.
  - The pattern is modelled twice and the two are proved to agree:
    - as a declarative predicate that follows the regular expression piece by
      piece (`CoordinatePattern.Matches`);
    - as a deterministic recognizer (`CoordinatePattern.Recognize`).
  - Numbers are exact reals.
  - The proofs show that the pattern alone bounds both halves. A matched
    string always splits into exactly two parts. Of the five error returns,
    only the format error and the longitude error can happen. White space
    after the comma passes the pattern but makes the longitude unparsable.
- The two `validateDate` functions. Each is a fixed-shape pattern followed by
  `time.Parse(time.RFC3339, ...)`.
  - The client's takes `±hh:mm` offsets only. The location service's takes
    `+hh:mm` or `Z`.
  - `time.Parse` is modelled as the `date-time` grammar of section 5.6 of
    RFC 3339, with the restrictions of section 5.7 and the leap-year rule of
    Appendix C (module `Rfc3339`).
  - `Format` prints a date-time back. Two round trips show that `Parse`
    accepts exactly the printed forms of valid date-times. On top of them,
    each `validateDate` is characterised in both directions.
- `isValidUsername`: `^[a-zA-Z0-9]{4,16}$`. Any order of letters and digits
  is accepted.
- The search box of `getUsersInLocation`, modelled as a predicate over exact
  numbers with its characterisation. The rows the query returns are modelled
  as a filter.
- The accumulation loop of `getTraveledDistance`, modelled as a method. It is
  proved equal to a recursive path length, whose properties are proved as
  lemmas. The great-circle distance (`haversine`) is a function parameter.

The test cases of `cmd/goloc/cli_test.go` are lemmas in `CliVectors`,
together with further strings that show where the validators draw their
lines. `LocationVectors` does the same for the location service's
`validateDate`.

A reader might expect `"91.0,0.0"` to fail the latitude range check at
cmd/goloc/cli.go:131. The pattern rejects it first: `[1-8]?\d` and
`90(\.0{1,8})?` do not match `91.0`, so the error is the format error
(`CliVectors.LatitudeNinetyOne`). The range checks at
cmd/goloc/cli.go:131-137 can never fail (`Cli.ValidateOutcomes`).

Modules, in dependency order:

- `Lexical`: character classes, digit strings, fixed-shape patterns.
- `GoText`: `strings.Split`, `strconv.ParseFloat` on decimals.
- `CoordinatePattern`: the coordinate pattern.
- `Rfc3339`: the date-time grammar.
- `Cli`: the client's validators.
- `Models`: the stored records.
- `UserService`: the user service's validator copy and search box.
- `LocationService`: the location service's `validateDate` and the distance
  loop.
- `CliVectors` and `LocationVectors`: the test vectors.

## Model

| member | source | states |
|---|---|---|
| Cli.ValidateCoordinates | cmd/goloc/cli.go:107-140 | Every error returns (0, 0). Every success lies in [-90,90] × [-180,180]. The format error is returned exactly when the string does not match the coordinate pattern. |
| Cli.ValidateParts | cmd/goloc/cli.go:117-139 | Past the pattern check, the format error is never returned. Errors give (0, 0), and a success is within both ranges. |
| Cli.ValidateRecognized | cmd/goloc/cli.go:112-117 | Once the pattern matches, the split has at least two parts, so `parts[1]` is in bounds. |
| Cli.ValidatePartsInRange | cmd/goloc/cli.go:120-139 | Two parts that parse to in-range numbers validate to exactly those numbers. |
| Cli.ValidatePartsSpace | cmd/goloc/cli.go:125-128 | A second part that starts with white space gives "Invalid longitude". |
| Cli.ValidateAt | cmd/goloc/cli.go:109-139 | For a string the pattern matches at a given comma and longitude start, both halves parse. The result is their values when no white space follows the comma, else "Invalid longitude". |
| Cli.ValidateMatched | cmd/goloc/cli.go:109-139 | `lat "," ws lon` with pattern-valid halves validates to the written numbers when `ws` is empty, and to "Invalid longitude" otherwise. |
| Cli.ValidateOutcomes | cmd/goloc/cli.go:120-137 | Only three outcomes are reachable: success, the format error and the longitude error. "Invalid latitude" and both out-of-range errors cannot occur. |
| Cli.ValidateSuccess | cmd/goloc/cli.go:120-139 | On success the string is `lat "," lon` with no white space. The results are the values written in the two halves. |
| Cli.ValidateDate | cmd/goloc/cli.go:143-165 | An accepted date is exactly 25 characters long, with a `+` or `-` at index 19. |
| Cli.ValidateDateSound | cmd/goloc/cli.go:145-164 | An accepted date is a valid RFC 3339 date-time with no fraction and a numeric offset. It is written exactly as `Format` prints it. |
| Cli.ValidateDateComplete | cmd/goloc/cli.go:145-164 | Conversely, every valid date-time with no fraction and a numeric offset is accepted in its printed form. |
| Cli.ValidateDateRejectsUtcSuffix | cmd/goloc/cli.go:145 | A date ending in `Z` is never accepted. |
| Cli.MatchRepeatMeans | cmd/goloc/cli.go:170 | `[a-zA-Z0-9]{min,max}` matches exactly the strings of length `min..max` made only of ASCII letters and digits. |
| Cli.IsValidUsername | cmd/goloc/cli.go:168-180 | True exactly when the length is 4 to 16 and every character is an ASCII letter or digit. |
| CoordinatePattern.RecognizeIsMatches | cmd/goloc/cli.go:109-112 | The hand-written recognizer accepts exactly the strings the pattern's declarative reading matches. |
| CoordinatePattern.LatBodyIff | cmd/goloc/cli.go:109 | The latitude alternatives of the pattern (`[1-8]?\d` with an optional fraction, or `90` with an optional zero fraction), checked after splitting at the first '.', are recognised exactly when they match. |
| CoordinatePattern.LonBodyIff | cmd/goloc/cli.go:109 | The same for the longitude alternatives (`180` with an optional zero fraction, or `1[0-7]\d` or `[1-9]?\d` with an optional fraction). |
| CoordinatePattern.LatitudeIff | cmd/goloc/cli.go:109 | A signed latitude matches exactly when its unsigned body is recognised. |
| CoordinatePattern.LongitudeIff | cmd/goloc/cli.go:109 | The same for a signed longitude. |
| CoordinatePattern.MatchedRecognized | cmd/goloc/cli.go:109 | For a matched string, the recognizer finds the pattern's comma and the end of its `\s*`. |
| CoordinatePattern.MatchedParts | cmd/goloc/cli.go:109-117 | A matched string has exactly one comma, so `strings.Split` gives exactly two parts. |
| CoordinatePattern.MatchedHalves | cmd/goloc/cli.go:109-125 | A matched string is recognised and splits into two parts. When the pattern's `\s*` took some white space, the second part starts with it. |
| CoordinatePattern.LatitudeValue | cmd/goloc/cli.go:109-133 | Every latitude the pattern admits parses to a number in [-90, 90]. |
| CoordinatePattern.LongitudeValue | cmd/goloc/cli.go:109-137 | Every longitude the pattern admits parses to a number in [-180, 180]. |
| CoordinatePattern.BoundedDecimal | cmd/goloc/cli.go:109 | A whole part below the bound with any fraction, or exactly the bound with a zero fraction, stays within ±bound. |
| GoText.Split | cmd/goloc/cli.go:117 | `strings.Split` gives at least one part, and no part contains the separator. |
| GoText.JoinSplit | cmd/goloc/cli.go:117 | Joining the parts of a split with the separator gives back the string. |
| GoText.SplitJoin | cmd/goloc/cli.go:117 | Splitting a join of separator-free parts gives back the parts. |
| GoText.SplitAt | cmd/goloc/cli.go:117 | A string with a single separator splits into the text before it and the text after it. |
| GoText.ParseFloat | cmd/goloc/cli.go:120 | A string that parses starts with a sign, a digit or a '.'. In particular, leading white space is refused. |
| GoText.ParseFloatNumeral | cmd/goloc/cli.go:120-125 | An optionally signed decimal numeral parses to its exact value. |
| GoText.DecimalValue | cmd/goloc/cli.go:120 | The value of `whole.frac` lies in [whole, whole + 1). |
| Lexical.PadDigitsValue | internal/location_service/location_processing.go:87 | Reading back a zero-padded numeral gives its number. |
| Lexical.DigitsValuePad | internal/location_service/location_processing.go:87 | Printing the value of a digit string, padded to its length, gives the string back. |
| Lexical.IndexOf | cmd/goloc/cli.go:117 | Gives the first occurrence of the character, or the length when there is none. |
| Lexical.SkipSpaces | cmd/goloc/cli.go:109 | Finds the end of the `\s*` run. |
| Rfc3339.DaysInMonth | cmd/goloc/cli.go:159 | Every month has 28 to 31 days. A month has 29 exactly when it is February of a leap year. |
| Rfc3339.Parse | cmd/goloc/cli.go:159 | Everything `time.Parse(time.RFC3339, ...)` accepts satisfies the restrictions of section 5.7 of RFC 3339. |
| Rfc3339.ParseFormat | cmd/goloc/cli.go:159 | Every valid date-time is parsed back from its printed form. |
| Rfc3339.FormatParse | cmd/goloc/cli.go:159 | Every string `Parse` accepts is the printed form of the date-time it returns. |
| Rfc3339.OffsetRoundTrip | cmd/goloc/cli.go:159 | A time offset is parsed back from its printed form. |
| Rfc3339.OffsetTextRoundTrip | cmd/goloc/cli.go:159 | An offset text that parses prints back as written. |
| Rfc3339.FieldsRoundTrip | cmd/goloc/cli.go:159 | The six printed date and time fields read back as the fields. |
| Rfc3339.PrefixRoundTrip | cmd/goloc/cli.go:159 | The fields read from the 19-character prefix print back as that prefix. |
| Rfc3339.FormatLayout | cmd/goloc/cli.go:145 | The length of a printed date-time and the character at index 19. |
| Rfc3339.NumericFormatFitsShape | cmd/goloc/cli.go:145 | A date-time with no fraction and a numeric offset prints in the shape `####-##-##T##:##:##±##:##`. An offset ahead of UTC prints with `+`. |
| Rfc3339.UtcFormatFitsShape | internal/location_service/location_processing.go:73 | A date-time with no fraction in UTC prints in the shape `####-##-##T##:##:##Z`. |
| UserService.ValidateCoordinates | internal/user_service/user_service.go:85-118 | The user service's copy gives the same result as the client's on every string. |
| UserService.InBoxIff | internal/user_service/user_service.go:143 | A point is in the box exactly when each coordinate is within `radius` of the centre's. |
| UserService.CentreInBox | internal/user_service/user_service.go:143 | The centre is in its own box exactly when the radius is not negative. |
| UserService.NegativeRadiusEmpty | internal/user_service/user_service.go:143 | A negative radius gives an empty box. |
| UserService.RowsInBox | internal/user_service/user_service.go:143 | A row is returned exactly when it is stored and its coordinates are in the box. |
| LocationService.ValidateDate | internal/location_service/location_processing.go:71-93 | An accepted date is 25 characters with `+` at index 19, or 20 characters with `Z` there. |
| LocationService.ValidateDateSound | internal/location_service/location_processing.go:73-92 | An accepted date is a valid RFC 3339 date-time with no fraction and an offset that is `Z` or ahead of UTC. It is written exactly as `Format` prints it. |
| LocationService.ValidateDateComplete | internal/location_service/location_processing.go:73-92 | Conversely, every such date-time is accepted in its printed form. |
| LocationService.ValidateDateRejectsMinus | internal/location_service/location_processing.go:73 | An offset behind UTC (`-`) is never accepted, unlike in the client's version. |
| LocationService.TraveledDistance | internal/location_service/location_processing.go:63-66 | The loop's total is the path length: the sum of `haversine` over consecutive pairs, in list order. |
| LocationService.PathLengthIsLegsSum | internal/location_service/location_processing.go:63-66 | Adding the legs front-to-back recursively equals adding them left to right as the loop does. |
| LocationService.LegsSumTail | internal/location_service/location_processing.go:64-65 | Dropping the first location takes its leg off the front of the running sum. |
| LocationService.ShortPath | internal/location_service/location_processing.go:64 | An empty or one-element list gives 0. |
| LocationService.PathLengthConcat | internal/location_service/location_processing.go:64-65 | Joining two paths keeps every leg of each and adds exactly the one leg between them. |
| LocationService.PathLengthAppend | internal/location_service/location_processing.go:63-66 | Appending a location to a non-empty list adds exactly the leg from the last location to it. |
| LocationService.PathLengthNonNegative | internal/location_service/location_processing.go:63-66 | With a distance that is never negative, neither is the total. |
| CliVectors.CoordinatesAccepted | cmd/goloc/cli_test.go:9-21 | `"22.23354166,22.54223445"` validates to (22.23354166, 22.54223445) with no error. |
| CliVectors.SpaceAfterComma | cmd/goloc/cli.go:109-128 | `"1.5, 2.5"` gives "Invalid longitude". |
| CliVectors.LatitudeNinetyOne | cmd/goloc/cli.go:109-113 | `"91.0,0.0"` gives the format error, not an out-of-range error. |
| CliVectors.LongitudeBeyond180 | cmd/goloc/cli.go:109-113 | `"0,180.5"` gives the format error. |
| CliVectors.LeadingZero | cmd/goloc/cli.go:109-113 | `"09,0"` gives the format error. |
| CliVectors.BareDot | cmd/goloc/cli.go:109-113 | `"1.,2"` gives the format error. |
| CliVectors.NineFractionDigits | cmd/goloc/cli.go:109-113 | `"0.123456789,0"` gives the format error. |
| CliVectors.ThreeParts | cmd/goloc/cli.go:109-113 | `"1,2,3"` gives the format error. |
| CliVectors.RejectedLatitude | cmd/goloc/cli.go:109-113 | A string whose first half is not a pattern latitude gives the format error. |
| CliVectors.RejectedLongitude | cmd/goloc/cli.go:109-113 | A string whose second half, with no leading white space, is not a pattern longitude gives the format error. |
| CliVectors.DateAccepted | cmd/goloc/cli_test.go:30 | `2024-04-01T12:00:00+00:00` is accepted. |
| CliVectors.DatesRejected | cmd/goloc/cli_test.go:31-35 | The five malformed dates of the test table are rejected. |
| CliVectors.UsernameAccepted | cmd/goloc/cli.go:50 | `user1212` is accepted. |
| CliVectors.UsernameDigitsFirst | cmd/goloc/cli.go:22 | `1212user` is accepted too, despite the flag help's "lettersnumbers" order. |
| CliVectors.UsernameTooShort | cmd/goloc/cli.go:170 | `ab1` is rejected. |
| CliVectors.UsernameTooLong | cmd/goloc/cli.go:170 | A 17-character name is rejected. |
| CliVectors.UsernameUnderscore | cmd/goloc/cli.go:170 | `user_1212` is rejected. |
| LocationVectors.MonthThirteen | internal/location_service/location_processing.go:73-92 | `2024-13-01T12:00:00Z` fits the pattern but is rejected by the RFC 3339 check. |
| LocationVectors.ThirtiethOfFebruary | internal/location_service/location_processing.go:73-92 | `2024-02-30T12:00:00Z` fits the pattern but is rejected. |
| LocationVectors.LeapDay | internal/location_service/location_processing.go:87 | `2024-02-29T00:00:00Z` is accepted. |
| LocationVectors.NoLeapDay | internal/location_service/location_processing.go:87 | `2023-02-29T00:00:00Z` is rejected. |
| LocationVectors.MinusOffset | internal/location_service/location_processing.go:73 | `2024-04-01T12:00:00-05:00` is rejected. |

## Left out

- Floating point. `float64` values, `strconv.ParseFloat` rounding and the
  float additions of the distance loop are exact reals here. The grammar
  allows at most 8 fraction digits with a whole part of at most three digits,
  so a parsed value and its nearest `float64` agree on every comparison the
  code makes with ±90 and ±180.
- GoText.ParseFloat: it models decimal numerals only (an optional sign,
  digits, an optional `.` and digits). Go's exponents, hexadecimal forms,
  `inf`, `nan` and `_` separators are left out. None of them can reach it
  past the coordinate pattern.
- `haversine` (internal/location_service/location_processing.go:97-113) is
  floating-point trigonometry. It is the function parameter `haversine` of
  `LocationService.TraveledDistance`, with no properties assumed except in
  `PathLengthNonNegative`, which requires it to be non-negative.
- Rfc3339.Parse: the bound on the hours and minutes of a numeric offset is
  the parameter `strictOffset`. With `true` it is RFC 3339's 00-23 and 00-59.
  With `false` there is no bound beyond two digits each. Go's `time.Parse`
  applies a bound of its own (hours up to 24, minutes up to 60, accepting
  e.g. `+24:00`), which is neither of these and is not modelled.
- Rfc3339.Parse: the `T` separator and the `Z` offset are upper case only,
  as in Go. A leap second (`:60`) is rejected, as Go does.
- The `err != nil` branches after `regexp.MatchString` (cmd/goloc/cli.go:150,
  175; internal/location_service/location_processing.go:78) are not modelled.
  The patterns are constants that compile, so these branches are never
  taken.
- The 6-decimal `%f` re-formatting in `updateUserLocation`
  (internal/user_service/user_service.go:63), which could round e.g.
  90.0000004 to 90.000000.
- UserService.RowsInBox: the query has no ORDER BY, so only which rows come
  back is stated, not their order. The parsing of the request parameters and
  the HTTP responses of `getUsersInLocation` are not modelled.
- UserService.RowsInBox returns the matching `Location` rows. The query
  selects from the `location` table but reads the rows into `[]models.User`,
  so each "user" the endpoint returns carries a location's `id` and no user
  name. That mapping into `User` values is not modelled.
- LocationService.TraveledDistance takes the list as given. The fetch at
  internal/location_service/location_processing.go:58 has no user filter and
  no ORDER BY, so the time order the sum presumes is not guaranteed. The
  query itself is not modelled.
- All I/O and plumbing:
  - the database set-up and gorm queries;
  - the echo handlers and middleware;
  - both service `main` functions;
  - the client's `main` with its flag parsing, printing and `os.Exit`.
- models/models.go: the two records are mirrored as datatypes
  (`Models.Location`, `Models.User`). Their gorm table names are not
  modelled.
