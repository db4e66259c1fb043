# News model: membership-gated visibility, scopes and derived fields

This project models the `News` Eloquent model of a content-management
backend (`app/Models/News.php`): the four query scopes that narrow a news
listing and the two accessors that derive display fields from a row.

- `published`, `featured` and `byCategory($c)` are equality conditions on
  `status`, `is_featured` and `category`.
- `forMembership($level)` implements membership-gated visibility. The tier
  names form the ordered list `none, basic, standard, premium`. A requested
  level of `'none'` keeps the rows whose `membership_requirement` is `"none"`.
  Any other listed level keeps the rows whose requirement is one of the names
  up to and including it. A level that is not in the list adds no condition:
  the query comes back unchanged.
- `excerpt` is the description when it is truthy in PHP. Otherwise it is the
  content, cut to 100 bytes and followed by `"..."` when it is longer.
- `formatted_date` renders `published_date` as `Y.m.d`, or `""` when there is
  no date.

The model works on an in-memory sequence of rows (`News.NewsItem`, one field
per mass-assignable column). A query that chains scopes is `Scopes.Chain`:
the scopes are applied one after another. `Scopes.Where` is a single query
whose WHERE clause is the AND of the scopes. `Scopes.ChainIsConjunction`
proves the two are the same. `Membership.Allows` models the string branches
of `forMembership` as written. `Membership.AllowsByRank` restates the rule
over an enumerated tier with a numeric rank. `Membership.AllowsIsRankOrder`
proves the two agree on every pair of strings.

Modules: `Wrappers` (nullable values), `News` (the row and its date),
`Membership` (the tier rule), `Scopes` (the four scopes and chaining),
`Accessors` (`excerpt` and `formatted_date`).

The design description that accompanies the system differs from the code in
three places. The model follows the code in each.

- The description says an unrecognised requested level is treated as
  `none`, failing closed. The code (`app/Models/News.php:77`) returns the
  query untouched, so every row is kept (`Scopes.ForUnknownLevelKeepsAll`).
- The description says `premium` sees the full input. The code keeps only
  rows whose requirement is one of the four tier names
  (`Scopes.ForPremiumKeepsTiered`).
- The description says the excerpt is the description when it is
  non-empty. The code tests PHP truthiness, so a description of `"0"` also
  falls through to the content.

`forMembership` takes the level `'none'` when called without an argument
(`app/Models/News.php:61`), which is `Scopes.ForMembership("none")`.

## Model

| member | source | states |
|---|---|---|
| `Membership.Allows` | app/Models/News.php:61-78 | no contract; `scopeForMembership` as written: level `'none'` keeps requirement `"none"`, a listed level keeps the requirements in the tier-list prefix ending at it, any other level keeps every row; its properties are in `Membership.AllowsIsRankOrder` and the lemmas after it |
| `Membership.AllowsByRank` | app/Models/News.php:69-77 | no contract; the rank rule: a known tier keeps known tiers of no higher rank, an unknown level keeps everything; `Membership.AllowsIsRankOrder` proves it equal to `Membership.Allows` |
| `Scopes.Holds` | app/Models/News.php:46-78 | no contract; the condition each scope adds: status `"published"`, featured flag set, category equal to the argument, `Membership.Allows` on the requirement; `Scopes.PublishedKeepsExactly` and the lemmas beside it carry its properties |
| `Scopes.HoldsAll` | app/Models/News.php:46-78 | no contract; a row meets every scope of a list (the AND of chained scopes); used by the contract of `Scopes.Where` |
| `Scopes.Chain` | app/Models/News.php:46-78 | no contract; scopes applied one after another on a query; `Scopes.ChainIsConjunction` proves it equal to one ANDed query |
| `Accessors.Truncate` | app/Models/News.php:92-94 | no contract; the content branch of `getExcerptAttribute`; `Accessors.ExcerptOfContent` carries its properties |
| `Accessors.Excerpt` | app/Models/News.php:86-95 | no contract; `getExcerptAttribute`: the description when PHP-truthy, else the truncated content; properties in `Accessors.ExcerptOfTruthyDescription` and `Accessors.ExcerptOfContent` |
| `Accessors.FormatYmd` | app/Models/News.php:83 | no contract; the `Y.m.d` rendering of a date; properties in `Accessors.FormattedDateShape` and the round-trip lemmas |
| `Accessors.FormattedDate` | app/Models/News.php:81-84 | no contract; `getFormattedDateAttribute`: `""` without a date, else the `Y.m.d` rendering; properties in `Accessors.FormattedDateShape` |
| `Accessors.ParseYmd` | app/Models/News.php:83 | no contract; reads a `Y.m.d` string back as a date, the inverse used by `Accessors.FormatParseRoundTrip` and `Accessors.ParseFormatRoundTrip` |
| `Membership.Search` | app/Models/News.php:70 | `array_search` on the tier list, which holds no numeric string, so its loose comparison is string equality: it finds the first index holding the key, and returns `false` exactly when the key is absent |
| `Membership.LevelsAreRankedNames` | app/Models/News.php:69 | the tier list has four entries, holding each tier's name at that tier's rank and nowhere else |
| `Membership.Classify` | app/Models/News.php:69 | a string reads as a known tier exactly when it is in the tier list, and then names that tier |
| `Membership.SearchLevels` | app/Models/News.php:69-70 | searching the tier list for a tier's name finds that tier's rank |
| `Membership.InPrefixIffRank` | app/Models/News.php:73-74 | a requirement lies in the list prefix that ends at tier t exactly when it names a tier of rank at most t's |
| `Membership.AllowsIsRankOrder` | app/Models/News.php:61-78 | for every requested level and requirement string, the scope keeps the row exactly when the rank rule does: an unknown level keeps everything, a known tier keeps only known tiers of no higher rank |
| `Membership.NoneBranchIsPrefixRule` | app/Models/News.php:64-74 | the special case for `'none'` keeps the same requirements the general prefix rule keeps at index 0, where the search finds `'none'` |
| `Membership.KnownLevelKeepsPrefix` | app/Models/News.php:69-74 | for the listed level at index i, a requirement is kept exactly when it equals one of the first i+1 tier names |
| `Membership.NoneKeepsOnlyNone` | app/Models/News.php:64-65 | level `'none'` keeps exactly the requirement `"none"` |
| `Membership.AllowsMonotone` | app/Models/News.php:69-74 | for tiers a of rank at most b's, every requirement level a keeps is kept by level b |
| `Membership.PremiumKeepsEveryTier` | app/Models/News.php:69-74 | level `'premium'` keeps a requirement exactly when it is one of the four tier names |
| `Membership.OffListNeverAllowed` | app/Models/News.php:69-74 | a requirement outside the tier list is kept by no listed level, `premium` included |
| `Membership.UnknownLevelAllowsAll` | app/Models/News.php:70-77 | a requested level outside the tier list keeps every requirement, off-list ones included |
| `Scopes.Where` | app/Models/News.php:46-78 | one ANDed query returns a subsequence of its input; each row appears exactly as often as in the input when it meets every condition and not at all otherwise; the input comes back unchanged exactly when every row meets every condition |
| `Scopes.WhereWhere` | app/Models/News.php:46-59 | filtering by one list of scopes and then by another equals filtering once by both lists |
| `Scopes.ChainIsConjunction` | app/Models/News.php:46-78 | chaining scopes one after another returns the same rows, in the same order, as one query ANDing all their conditions |
| `Scopes.WhereDependsOnScopeSet` | app/Models/News.php:46-59 | two lists holding the same scopes select the same rows, whatever their order and repetitions |
| `Scopes.ChainCommutes` | app/Models/News.php:46-59 | chaining two scopes in either order gives the same rows |
| `Scopes.ChainIdempotent` | app/Models/News.php:46-59 | applying a scope twice gives the same rows as applying it once |
| `Scopes.ChainKeepsExactly` | app/Models/News.php:46-78 | a chain keeps its surviving rows in input order, each as often as the input has it when it meets every scope, and drops every other row |
| `Scopes.PublishedKeepsExactly` | app/Models/News.php:46-49 | `published` keeps exactly the rows whose status is `"published"`, with their multiplicity |
| `Scopes.FeaturedKeepsExactly` | app/Models/News.php:51-54 | `featured` keeps exactly the rows flagged featured, with their multiplicity |
| `Scopes.ByCategoryKeepsExactly` | app/Models/News.php:56-59 | `byCategory(c)` keeps exactly the rows whose category is c, with their multiplicity |
| `Scopes.ForNoneKeepsExactly` | app/Models/News.php:61-66 | `forMembership('none')` keeps exactly the rows whose requirement is `"none"` |
| `Scopes.ForPremiumKeepsTiered` | app/Models/News.php:69-75 | `forMembership('premium')` keeps exactly the rows whose requirement is one of the four tier names and drops all others |
| `Scopes.ForUnknownLevelKeepsAll` | app/Models/News.php:70-77 | `forMembership` with a level outside the tier list returns its input unchanged |
| `Scopes.StrongerWhereIsSubsequence` | app/Models/News.php:46-78 | when every row one set of conditions accepts is accepted by another, the first query's rows are a subsequence of the second's |
| `Scopes.ForMembershipMonotone` | app/Models/News.php:69-75 | for tiers a of rank at most b's, the rows visible at a are, in order, a subsequence of the rows visible at b |
| `Scopes.PublishedBasicExample` | app/Models/News.php:46-75 | a published `none` row, a published `premium` row and a `basic` draft, filtered by `published` and then by `forMembership('basic')`, leave the first row only |
| `Accessors.ExcerptOfTruthyDescription` | app/Models/News.php:89-90 | a description that is not NULL, `""` or `"0"` is the excerpt unchanged |
| `Accessors.ExcerptOfContent` | app/Models/News.php:92-94 | otherwise content of at most 100 bytes is the excerpt unchanged; longer content gives its first 100 bytes followed by `"..."`, 103 bytes in all; either way the excerpt begins with a prefix of the content and has at most 103 bytes |
| `Accessors.FormattedDateShape` | app/Models/News.php:83 | with no date the formatted date is `""`; with a date it has 10 characters, dots at positions 4 and 7, and digits elsewhere |
| `Accessors.FormatParseRoundTrip` | app/Models/News.php:83 | reading the `Y.m.d` rendering back gives the original date |
| `Accessors.ParseFormatRoundTrip` | app/Models/News.php:83 | every string that reads back as a valid date is exactly that date's `Y.m.d` rendering |
| `Accessors.FormatYmdInjective` | app/Models/News.php:83 | two valid dates with the same rendering are the same date |
| `Accessors.FormattedDateExample` | app/Models/News.php:83 | 7 March 2024 renders as `"2024.03.07"` |

## Left out

- Relationships `createdBy` and `updatedBy`: they are foreign-key lookups into an `Admin` model, which is not part of this model. The row keeps only the two ids.
- The query builder and SQL: each scope is a filter over a sequence of rows. The model does not cover the database collation. The model compares strings exactly; a case-insensitive collation would also match `"Published"`.
- SQL NULL in `status`, `category` and `membership_requirement`: these columns are modelled as strings. A NULL never satisfies these equality conditions, so it behaves like an off-list string. The one exception is `forMembership` with an unknown level, which keeps the row either way.
- `byCategory(null)`: Laravel turns this into `whereNull`. The category parameter is modelled as a string only.
- Non-string requested levels: PHP's loose comparison in `array_search` would match `true` against `'none'`. The requested level is modelled as a string, for which the comparison is plain string equality.
- A NULL `content` with a falsy description: this is not modelled. `content` is a non-null string.
- Multibyte text: each `char` of a Dafny string stands for one byte of the PHP string. This holds by convention only, since the type also admits characters above 255. Lengths and cuts are byte counts, as `strlen` and `substr` use. A cut may split a UTF-8 character.
- `Accessors.FormattedDate`: only valid dates with years 1000 to 9999 are modelled. PHP's rendering of years before 1000 and years BCE is not reproduced. The Carbon casting machinery is a library and is not modelled.
- Mass assignment and casts: `$fillable` and `$casts` only pick the row's fields.
- `view_count` is carried as a field. No code shown changes it, so no property is claimed about it.
- The administrator bootstrap script and the publications, seminar and services seeders: they are framework boot, password hashing, database calls and console output. The seeders' data arrays are empty.
