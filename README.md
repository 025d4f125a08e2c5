# libzakformini INI provider — conversion core in Dafny

This project models the one piece of logic in the INI-file form provider of
libzakformini: `zak_form_ini_provider_new_gvalue_from_element`. It takes a form
element's current string value, its provider type and its format-option table
and turns them into a typed value:

- an integer for `integer`;
- a float for `float`;
- a string for `string`, `date`, `time` and `datetime`;
- a boolean for `boolean`.

The model also covers the provider's `load` operation, which always succeeds
and touches nothing.

Files:

- `wrappers.dfy`: `Option`. `None` stands for a C `NULL` or an unset result.
- `ascii.dfy`: GLib's ASCII case handling (`g_ascii_tolower` and
  `g_ascii_strcasecmp`) over NUL-free strings (`CString`). The test
  `g_ascii_strcasecmp (type, literal) == 0` is proved to hold exactly when
  both strings are equal after ASCII case folding.
- `form.dfy`: the provider.
  - `TypeTag` holds the seven provider types and `Name` their literals.
  - `ParseTag` is the source's if/else-if chain of case-insensitive tests, in
    the source's order.
  - `Convert` is the body of each branch.
  - `ValueFromElement` is the whole conversion. It gives `None` when no
    test succeeds. A `NULL` provider type is converted as `integer`.
  - `Load` is the load operation.
- `form_properties.dfy`: the conversion's promises, one lemma per branch, plus
  the case-insensitivity of the dispatch.

Library routines whose code is not part of this model are fields of a
`Library` parameter, so the model says nothing about their internals. These
are money unformatting, the `(gint)` cast, date/time parsing and date/time
formatting. The float payload and the parsed date/time are type parameters
(`Num`, `Moment`) and stay abstract.

What `src/form.c` does, as modelled:

- The conversion returns a typed `GValue`. Integers are a 32-bit `gint`
  (`Gint`), and booleans are a `gboolean`.
- A provider type that matches none of the seven literals leaves the local
  `ret` unassigned (src/form.c:198, 309). The model returns `None` for that
  case.
- A `NULL` provider type (`None`) makes GLib's `g_ascii_strcasecmp` return 0
  through its argument guard. The first test then succeeds and the integer
  branch runs.

## Model

| member | source | states |
|---|---|---|
| Ascii.CaseCmp | src/form.c:208 | `g_ascii_strcasecmp` returns zero exactly when the two strings are equal after ASCII case folding. The stop at the terminating NUL is modelled. |
| Ascii.ToLower | src/form.c:208 | GLib's `TOLOWER` leaves no upper-case letter. It maps `A`..`Z` to `a`..`z` (code + 32) and leaves every other character unchanged. |
| IniProvider.Name | src/form.c:208-285 | The seven literals the chain compares against contain no upper-case letter. |
| IniProvider.Lookup | src/form.c:213-291 | The `g_hash_table_lookup` calls on the format table find a value exactly when the key is present, and then it is that key's value. |
| IniProvider.OutputPattern | src/form.c:254-300 | `date` and `time` render with a single two-character `%` conversion. `datetime` renders with two conversions separated by a space. |
| IniProviderProperties.DateTimePatternJoinsDateAndTime | src/form.c:254-300 | The `datetime` pattern is the `date` pattern, a space, then the `time` pattern. |
| IniProvider.StrCaseCmp | src/form.c:208 | The comparison returns zero exactly when the provider type is `NULL` or folds to the same string as the literal. |
| IniProvider.Matches | src/form.c:208-285 | One test of the chain succeeds exactly when the provider type is `NULL` or folds to that type's lower-case literal. |
| IniProvider.ParseTag | src/form.c:208-307 | The chain selects a type only when the provider type folds to its literal, and `integer` for a `NULL` type. It selects nothing exactly when no test succeeds. |
| IniProvider.Convert | src/form.c:208-307 | Each branch produces its own kind of value: an integer for `integer`, a float for `float`, a boolean for `boolean`, and a string for `string`, `date`, `time` and `datetime`. |
| IniProvider.ValueFromElement | src/form.c:195-310 | The conversion leaves the result unset exactly when the dispatch recognises no type. |
| IniProvider.Load | src/form.c:312-324 | `load` returns true. It has no reads clause, so it can neither read nor modify the element array. |
| IniProviderProperties.NamesDistinct | src/form.c:208-285 | The seven literals stay distinct under case folding, so at most one branch applies. |
| IniProviderProperties.ParseTagIff | src/form.c:208-307 | A type is selected if and only if the provider type folds to its literal. |
| IniProviderProperties.ParseTagNoneIff | src/form.c:208-307 | No type is selected if and only if the provider type is not `NULL` and folds to none of the seven literals. |
| IniProviderProperties.NullTagIsInteger | src/form.c:208-218 | A `NULL` provider type selects the integer branch. |
| IniProviderProperties.ParseTagIgnoresCase | src/form.c:208-285 | Provider types that differ only in ASCII letter case select the same branch. |
| IniProviderProperties.ParseTagName | src/form.c:208-285 | Each literal selects its own type. |
| IniProviderProperties.StringSpellings | src/form.c:231 | `STRING`, `String` and `string` all select the string branch. |
| IniProviderProperties.ConversionIgnoresTagCase | src/form.c:195-310 | The whole conversion gives the same result for provider types that differ only in letter case. |
| IniProviderProperties.IntegerIsTruncatedUnformatted | src/form.c:208-218 | `integer`, and a `NULL` type, give the `(gint)` cast of the unformatted value, a number in the 32-bit range. The unformatting gets the `thousands_separator` option and no currency symbol. |
| IniProviderProperties.IntegerConsultsOnlySeparator | src/form.c:213-215 | For `integer`, elements that agree on the value and on `thousands_separator` convert alike, whatever their other options. |
| IniProviderProperties.FloatIsUnformatted | src/form.c:219-230 | `float` gives the value unformatted with both the `thousands_separator` and the `currency_symbol` options. |
| IniProviderProperties.FloatConsultsSeparatorAndCurrency | src/form.c:225-228 | For `float`, elements that agree on the value, `thousands_separator` and `currency_symbol` convert alike. |
| IniProviderProperties.StringIsIdentity | src/form.c:231-234 | `string` gives a string value equal to the input value. |
| IniProviderProperties.BooleanIsExactTrue | src/form.c:235-238 | `boolean` gives true exactly when the value equals `TRUE` character for character. |
| IniProviderProperties.LowerCaseTrueIsFalse | src/form.c:237 | The boolean comparison is case-sensitive: the value `true` gives false. |
| IniProviderProperties.TemporalParseFailureIsEmpty | src/form.c:239-307 | For `date`, `time` and `datetime`, a value that the `content` pattern cannot parse gives the empty string. |
| IniProviderProperties.TemporalParsedIsRendered | src/form.c:239-307 | A parsed date/time is rendered with `%F`, `%T` or `%F %T` for `date`, `time` or `datetime`. Nothing else tells the three branches apart. |
| IniProviderProperties.TemporalConsultsOnlyContent | src/form.c:239-307 | For a temporal type, elements that agree on the value and on the `content` option convert alike. |
| IniProviderProperties.UnknownTypeIsUnset | src/form.c:198-309 | The result is unset if and only if the provider type is a string that matches none of the seven literals. A `NULL` type is never unset. |

## Left out

- The internals of `zak_utils_unformat_money_full`, `zak_utils_get_gdatetime_from_string`
  and `zak_utils_gdatetime_format` are not modelled. These library routines are
  parameters (`Library`).
- Floating-point values are not modelled. The `gdouble` from unformatting stays
  an abstract `Num`. The `(gint)` cast is the parameter `truncate`, which
  always yields a 32-bit `Gint`. C leaves a cast of an out-of-range number
  undefined, and the model does not say which `Gint` that gives.
- Logging is not modelled. That includes the critical warning GLib's
  argument guard logs before it answers 0 for a `NULL` provider type.
- A `NULL` element value is not modelled. The value is always a string. C
  strings cannot hold NUL, which `CString` states.
- Ascii.CaseCmp: the sign of a non-zero result is computed on Unicode code
  points, not on UTF-8 bytes. Only the test against zero is used, and it
  agrees under both readings.
- GObject machinery has no behaviour and is not modelled: class, instance and
  interface init, `set_property`/`get_property` (whose switches only warn),
  `dispose` and `finalize`.
- The constructors are not modelled. `new_from_gkeyfile` does no I/O. It
  stores the result of `g_object_ref (kfile)` and a copy of the group name.
  `g_object_ref` is a GObject call, and a `GKeyFile` is not a GObject.
  `new_from_file` loads the key file from disk and ignores the load error.
  The header declares `new_from_gkeyfile` with three parameters while the
  definition takes two. That mismatch is a declaration issue, not behaviour.
- `insert`, `update` and `delete` are not modelled. They return an
  uninitialised value and do nothing else.
- Memory management (`g_date_time_unref`) is not modelled.
- The provider never reads or writes entries of its key file, and it has no
  section naming or save policy. `load` returns true without touching the
  elements.
