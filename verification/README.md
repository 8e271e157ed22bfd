# Locale-aware domain rewriting and small helpers, modelled in Dafny

This project models the computational core of the global helper file of a
visa-application website (`app/Helpers/helpers.php`):

- `build_domain_name` rewrites a hostname for a language subdomain
  (`fr.ivisa.com`, `www.ivisa.com`) or for the cookie scope. It splits the
  hostname on dots, decides whether the first label is a language subdomain
  or `www`, and then replaces, prepends or strips that label.
  `get_cookie_domain` turns the cookie-mode result into a cookie domain with
  a leading dot (modules `Domain` and `DomainExamples`).
- `create_nested_array` moves listed keys of a PHP array into a nested array
  (module `NestedArray`).
- `get_10_digit_date` (string and null inputs), the type/title
  normalisation of `flash`, and `clean_money_input` (modules `Dates`,
  `Flash`, `Money`).
- The PHP string built-ins these rely on: `explode`, `implode`,
  `strtolower`, `trim` and `str_replace` (module `PhpStrings`).

`build_domain_name` and `create_nested_array` update a local array step by
step. Each is a method: `Domain.BuildDomainName` reassigns a `parts`
sequence, and `NestedArray.CreateNestedArray` runs a loop over the keys.
Each method is proved equal to a specification function, and the lemmas
state the properties of those functions. The other helpers are
straight-line code and are modelled as functions.

Inputs that the PHP code reads from its environment are parameters here:

- the hostname, which `get_hostname` reads from the request or the
  configuration;
- the locale set, which stands for the keys of
  `\App\Services\Language::$locales` (that class is not part of this model);
- `isIp`, which stands for PHP's `filter_var(..., FILTER_VALIDATE_IP)`.

Strings are byte strings: each `char` is one byte, so `|s|` is PHP's
`strlen`. `strtolower` is ASCII-only.

Behaviour the code has and a reader might not expect. The model follows
the code in each case:

- The IP test runs before the mode test. An invalid mode with an IP-address
  hostname returns the hostname and does not throw (`Domain.InvalidModeFails`).
- Any two-byte mode is accepted as a language, not only two letters. It is
  not checked against the locale set.
- Cookie mode is not idempotent: `fr.es.x.com` becomes `es.x.com`, which
  becomes `x.com` (`Domain.CookieModeNotIdempotent`). It is idempotent
  unless two prefix labels come in a row
  (`Domain.CookieModeIdempotentOnSinglePrefix`).
- English on `fr.ivisa.com` gives `www.ivisa.com`: a prefixed hostname with
  three labels counts as a bare site (`DomainExamples.EnglishReplacesLanguage`).
- The cookie domain of a hostname that is a single prefix label, such as
  `www`, is `"."` (`Domain.CookieDomainCoversHost`).
- A `$` behind a leading comma survives `clean_money_input`. Cleaning twice
  can therefore differ from cleaning once (`Money.CleanNotIdempotent`).
- Listing the nested name itself as the last key of `create_nested_array`
  removes the nested array (`NestedArray.NestedNameListedLastIsDropped`).
  A set key listed after the nested name re-creates the slot as a fresh
  array, and what the nested array held is lost
  (`NestedArray.NestedNameThenKeyStartsAfresh`).
- `clean_money_input` trims `$` only at the ends: a `$` inside the amount
  is kept (`Money.CleanKeepsInnerDollar`).

## Model

| member | source | states |
|---|---|---|
| `PhpStrings.Explode` | app/Helpers/helpers.php:351 | splitting on dots always gives at least one label |
| `PhpStrings.ExplodeNoDots` | app/Helpers/helpers.php:351 | no label contains a dot |
| `PhpStrings.ExplodeCount` | app/Helpers/helpers.php:351 | a hostname with n dots has n + 1 labels |
| `PhpStrings.Implode` | app/Helpers/helpers.php:391 | joining starts with the first label; no labels give the empty string |
| `PhpStrings.ImplodeExplode` | app/Helpers/helpers.php:351 | joining the labels of a split gives back the original hostname |
| `PhpStrings.ExplodeImplode` | app/Helpers/helpers.php:391 | splitting a join of dot-free labels gives back the labels |
| `PhpStrings.Lower` | app/Helpers/helpers.php:356 | same length; each ASCII capital becomes its small letter, and every other byte is kept |
| `PhpStrings.LowerIsEn` | app/Helpers/helpers.php:356-357 | the mode counts as English exactly for `en`, `En`, `eN` and `EN` |
| `PhpStrings.LowerKeepsDots` | app/Helpers/helpers.php:356 | lower-casing neither adds nor removes a dot |
| `PhpStrings.TrimLeft` | app/Helpers/helpers.php:170 | the result is a suffix; every removed byte is the trimmed byte; the result does not start with it |
| `PhpStrings.TrimRight` | app/Helpers/helpers.php:170 | the result is a prefix; every removed byte is the trimmed byte; the result does not end with it |
| `PhpStrings.Trim` | app/Helpers/helpers.php:170 | no longer than the input; neither end is the trimmed byte |
| `PhpStrings.TrimSlice` | app/Helpers/helpers.php:170 | the result is the slice `s[i..j]` of the input; every byte before `i` and from `j` on is the trimmed byte |
| `PhpStrings.Delete` | app/Helpers/helpers.php:170 | the deleted byte no longer occurs; every other byte occurs as often as before; input without it is unchanged |
| `PhpStrings.DeleteConcat` | app/Helpers/helpers.php:170 | deleting from a concatenation deletes from each part and keeps their order |
| `PhpStrings.DeleteSingle` | app/Helpers/helpers.php:170 | a single byte is dropped when it is the deleted byte and kept otherwise; with `DeleteConcat` this fixes the result as the other bytes in their original order |
| `Domain.IsLangOrWww` | app/Helpers/helpers.php:352 | the first label is a prefix exactly when it is a locale code or `www`; the comparison is strict, so `WWW` counts only if it is itself a locale code |
| `Domain.WantsWww` | app/Helpers/helpers.php:360-363 | English asks for `www` exactly when two labels are left once the prefix is dropped and the last label is not `test` |
| `Domain.Relabel` | app/Helpers/helpers.php:368-380 | replacing or prepending equals: drop the prefix, then put the new subdomain, if any, in front |
| `Domain.BuiltDomain` | app/Helpers/helpers.php:341-394 | an IP hostname comes back unchanged; an error occurs exactly for a non-IP hostname with a mode that is neither two bytes nor `cookie` |
| `Domain.BuildDomainName` | app/Helpers/helpers.php:341-394 | the in-place rewrite of `parts` returns exactly what `BuiltDomain` specifies |
| `Domain.CookieDomain` | app/Helpers/helpers.php:399-407 | an IP hostname is its own cookie domain |
| `Domain.CookieModeDropsPrefix` | app/Helpers/helpers.php:382-386 | cookie mode returns an unprefixed hostname unchanged; it drops exactly the first label of a prefixed one |
| `Domain.LocaleModeSetsFirstLabel` | app/Helpers/helpers.php:354-380 | a non-English two-byte mode makes its lower-cased code the first label; the remaining labels are kept in order; the count stays the same or grows by one |
| `Domain.EnglishModeRule` | app/Helpers/helpers.php:357-379 | English adds `www` exactly on a bare non-`test` site; otherwise it drops a prefix and adds nothing |
| `Domain.InvalidModeFails` | app/Helpers/helpers.php:346-389 | any other mode throws for every non-IP hostname; an IP hostname still comes back unchanged |
| `Domain.CookieModeIdempotentOnSinglePrefix` | app/Helpers/helpers.php:382-386 | cookie mode applied twice equals once, unless two prefix labels come in a row |
| `Domain.CookieModeNotIdempotent` | app/Helpers/helpers.php:382-386 | `fr.es.x.com` gives `es.x.com`, which gives `x.com` |
| `Domain.CookieDomainCoversHost` | app/Helpers/helpers.php:399-407 | exactly one dot is added unless the result is an IP; the cookie domain is a suffix of `.` + hostname, except `.` for a lone prefix label |
| `DomainExamples.EnglishBareSite` | app/Helpers/helpers.php:357-365 | `ivisa.com` in English gives `www.ivisa.com` |
| `DomainExamples.EnglishTestSite` | app/Helpers/helpers.php:362 | `ivisa.test` in English stays `ivisa.test` |
| `DomainExamples.LanguageReplaced` | app/Helpers/helpers.php:368-370 | `es.ivisa.com` in French gives `fr.ivisa.com` |
| `DomainExamples.EnglishReplacesLanguage` | app/Helpers/helpers.php:360-370 | `fr.ivisa.com` in English gives `www.ivisa.com` |
| `DomainExamples.WwwReplaced` | app/Helpers/helpers.php:368-370 | `www.ivisa.com` in Spanish gives `es.ivisa.com` |
| `DomainExamples.CookieScope` | app/Helpers/helpers.php:382-407 | `fr.ivisa.com` has cookie scope `ivisa.com` and cookie domain `.ivisa.com` |
| `DomainExamples.ThreeByteModeFails` | app/Helpers/helpers.php:387-389 | the mode `eng` throws |
| `NestedArray.Prepared` | app/Helpers/helpers.php:180-182 | a missing or null nested slot becomes an empty array; nothing else changes |
| `NestedArray.MoveKey` | app/Helpers/helpers.php:189-194 | one step of the key loop keeps the nested slot an array or absent |
| `NestedArray.MoveKeys` | app/Helpers/helpers.php:188-195 | the whole key loop keeps the nested slot an array or absent |
| `NestedArray.CreateNestedArray` | app/Helpers/helpers.php:179-197 | throws exactly when the nested slot holds a non-null non-array; otherwise it runs the key loop on the prepared array; when the nested name is not listed, exactly the listed set keys are nested |
| `NestedArray.MoveKeysNests` | app/Helpers/helpers.php:188-195 | each listed non-null key ends up in the nested array with its value and is gone from the top level; every other key is unchanged; the nested array keeps its other entries |
| `NestedArray.MoveKeysSnoc` | app/Helpers/helpers.php:188-195 | the loop over a list and one more key is the loop over the list followed by one more turn |
| `NestedArray.NestedNameListedLastIsDropped` | app/Helpers/helpers.php:188-195 | when the nested name is the last listed key, the nested array is absent from the top level of the result |
| `NestedArray.NestedNameThenKeyStartsAfresh` | app/Helpers/helpers.php:188-195 | with the keys `details` then `a`, the old nested entries are lost and `details` holds only `a` |
| `NestedArray.NullKeyStays` | app/Helpers/helpers.php:189 | a listed key with a null value stays at the top level and is not nested |
| `Dates.Get10DigitDate` | app/Helpers/helpers.php:88-106 | null or empty gives null when allowed and an error otherwise; a string of at least ten bytes gives its first ten; a shorter string or a non-string is invalid |
| `Dates.Get10DigitDateIdempotent` | app/Helpers/helpers.php:100-101 | a returned date passed in again comes back unchanged |
| `Flash.NormalizeType` | app/Helpers/helpers.php:17-22 | the result is `success` exactly for `s`, `good` and `success`, and `error` exactly for `e`, `err` and `error`; other types pass through |
| `Flash.NormalizeTypeIdempotent` | app/Helpers/helpers.php:17-22 | normalising twice is normalising once |
| `Flash.FlashPayload` | app/Helpers/helpers.php:16-29 | the icon is the normalised type; the title is never empty; a given non-empty title is kept; otherwise the title is `Success!` exactly for a success and `Oops...` for anything else |
| `Money.CleanMoneyInput` | app/Helpers/helpers.php:169-171 | no comma remains, and the result is no longer than the input |
| `Money.CleanIsTrimmedSliceWithoutCommas` | app/Helpers/helpers.php:169-171 | the result is a slice of the input with its end runs of `$` cut off, then with its commas deleted; the slice neither starts nor ends with `$` |
| `Money.CleanKeepsInnerDollar` | app/Helpers/helpers.php:169-171 | `1,$2` gives `1$2`: a `$` inside the amount is kept |
| `Money.CleanKeepsDigits` | app/Helpers/helpers.php:169-171 | every byte other than `$` and `,` occurs as often as in the input |
| `Money.CleanFixesCleanAmounts` | app/Helpers/helpers.php:169-171 | an amount with no comma and no `$` at either end is returned unchanged |
| `Money.CleanNotIdempotent` | app/Helpers/helpers.php:169-171 | `,$5` gives `$5`, which gives `5` |

## Left out

- `get_hostname`, `get_locales` and the IP-address grammar behind `filter_var`: they read the request, the configuration and a class that is not part of this model. They are parameters (`hostname`, `locales`, `isIp`).
- The storage side of `flash` (`Session::put`), `get_flash_and_clear` and `flash_isset`: session I/O.
- The Carbon branch of `get_10_digit_date`: date-library code that is not part of this model. `Dates.DateInput` has no Carbon case.
- Insertion order of PHP array keys: `create_nested_array` is modelled on maps, so the order in which keys end up in the top-level and nested arrays is not captured.
- PHP's loose `==` in `flash` is modelled as string equality. This is exact for string types, because none of the compared constants is numeric. Non-string `$type` values are not modelled.
- `NestedArray.CreateNestedArray`: the key-by-key nesting property is stated only when the nested name is not among the keys. When it is, the result is still pinned down by `MoveKeys`. `NestedNameListedLastIsDropped` states the general rule when the nested name is listed last. `NestedNameThenKeyStartsAfresh` shows, on one input, a set key listed after it re-creating the slot.
- `Domain.LocaleModeSetsFirstLabel`: stated at the label level only for modes without a dot. A two-byte mode containing a dot would split into extra labels. `BuiltDomain` still gives the exact string for such modes.
- `Domain.CookieDomain`: its own contract covers only the IP case. `CookieDomainCoversHost` states the non-IP case.
- Everything else in the helper file: framework, session, ORM, routing, file, randomness, reflection, markdown and floating-point helpers (`money`, `format_currency`, `safe_divide`, `carbon`, `format_date`, `markdownToHtml`, `visa_category_route`, `routeLocale`, `url_normalize`, `transliterate`, and so on). They are thin wrappers over collaborators this model does not see.
