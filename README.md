# SOQL grammar, modelled in Dafny

This project models `SOQLGrammar`, the query grammar of the EloquentSalesForce
package. It extends Laravel's generic SQL `Grammar` so that Eloquent queries
compile to Salesforce Object Query Language (SOQL). The grammar overrides a
handful of the parent's methods:

- identifiers are not quoted (`wrapValue`), and backticks left by the parent are
  removed (`unWrapValue`);
- a basic `where` whose operator contains "not like" becomes `(not col like val)`.
  Any other basic `where` is rendered by the parent, loses its backticks, and has
  every `?` placeholder wrapped in single quotes;
- each join becomes a relationship subquery
  `, (select <fields> from <plural relationship>)`. The fields come from the
  Salesforce metadata lookup;
- `where` clauses are assembled behind the keyword `where`;
- an aggregate becomes `select F(C) aggregate`, with `distinct` on C only when
  the query is distinct and C is not `*`;
- the select components are emitted in a fixed order of eleven kinds.

Everything the grammar calls but does not contain is a field of the datatype
`SOQLGrammar.Collaborators`. These are the inherited `parent::whereBasic`,
`wrap`, `wrapTable`, `columnize` and `removeLeadingBoolean`, Laravel's
`str_plural`, and `ServiceProvider::objectFields`. Every property is proved for
all possible collaborators. The only exceptions are the worked examples, which
fix one concrete set of collaborators (`ExampleCollaborators`).

Files:

- `Strings.dfy` (module `Strings`): the PHP/Laravel string helpers the grammar
  uses: `str_replace` with a one-character needle, `strtolower`,
  `Str::contains`, `implode` and `trim`. Their contracts and lemmas pin each one
  down: `Replace` by `ReplaceSingle` and `ReplaceAppend`, `Lower` by its
  pointwise contract, `Join` by `JoinSingleton` and `JoinConcat`, and `Trim` by
  `TrimIsWindow`. `Contains` is defined directly as a non-empty substring test.
- `SOQLGrammar.dfy` (module `SOQLGrammar`): the data model (`Query`, `Where`,
  `JoinClause`, `Aggregate`), the grammar's operations as functions, and the
  lemmas about them.

Points where the code's behaviour is easy to misread:

- Join fields: the code always asks the metadata lookup for `['*']`. It never
  passes a caller-supplied subset.
- Pluralisation: the code calls `str_plural` on the wrapped table name. The
  model leaves that function abstract and does not assume "append s". Only the
  worked example's collaborators append "s".
- Leading `and`/`or`: the code hands the joined clauses to the inherited
  `removeLeadingBoolean`, so this model does not say what gets stripped.
- Quote characters: outside the "not like" path, the code removes only
  backticks. It then adds single quotes around each `?`. So the result has no
  backtick, but it can contain single quotes.
- Negated LIKE: on the "not like" path the value goes through `wrap` only. No
  quotes are added and no `?` placeholder is used, so the value `%Corp%`
  renders as `(not Name like %Corp%)` under plain-name wrapping. The worked
  example passes the value `'%Corp%'` with its quotes already in it.

## Model

| member | source | states |
|---|---|---|
| `SOQLGrammar.SelectComponentsOrder` | src/Database/SOQLGrammar.php:19-31 | the constant `SELECT_COMPONENTS` lists eleven distinct select components, from `aggregate` first to `lock` last; columns come before joins, joins before `from`, `from` before wheres, then groups, havings, orders, limit and offset in that order |
| `SOQLGrammar.WrapValue` | src/Database/SOQLGrammar.php:39-42 | a value is returned unchanged, because SOQL has no quoted identifiers |
| `SOQLGrammar.UnWrapValue` | src/Database/SOQLGrammar.php:44-47 | the result has no backtick; it is a subsequence of the input, so the other characters keep their order; its length is the input's length minus the number of backticks |
| `SOQLGrammar.UnWrapValueIdempotent` | src/Database/SOQLGrammar.php:39-47 | unwrapping twice is the same as unwrapping once, and unwrapping a wrapped value is the same as unwrapping it |
| `SOQLGrammar.UnWrapValueCharacterised` | src/Database/SOQLGrammar.php:44-47 | any backtick-free subsequence of the input with that length is exactly the output of `UnWrapValue`, so its contract determines the result uniquely |
| `SOQLGrammar.IsNotLike` | src/Database/SOQLGrammar.php:58 | the negated path is chosen when the lower-cased operator contains "not like"; such an operator has at least eight characters |
| `SOQLGrammar.IsNotLikeExtended` | src/Database/SOQLGrammar.php:58 | an operator that takes the negated path still takes it with any text added before or after, because the test is a substring test |
| `SOQLGrammar.NotLikeOperators` | src/Database/SOQLGrammar.php:58 | `not like`, `NOT LIKE` and `Not Like` all take the negated path |
| `SOQLGrammar.OtherOperators` | src/Database/SOQLGrammar.php:58 | `like` and `=` do not take the negated path |
| `SOQLGrammar.IsNotLikeCaseInsensitive` | src/Database/SOQLGrammar.php:58 | the path choice is the same for an operator and for its lower-cased form |
| `SOQLGrammar.NegatedLike` | src/Database/SOQLGrammar.php:59-63 | the negated rendering starts with `(not `, ends with `)`, and is at least 12 characters long, since the fixed text takes 12 |
| `SOQLGrammar.QuotePlaceholders` | src/Database/SOQLGrammar.php:67 | the rewrite adds only single quotes and never adds a backtick; it keeps the number of `?`; the length grows by exactly 2 for each `?` |
| `SOQLGrammar.UnquoteQuote` | src/Database/SOQLGrammar.php:67 | changing each `'?'` back to `?` recovers the input exactly, so every `?` became `'?'` and nothing else changed |
| `SOQLGrammar.QuoteTwiceDiffers` | src/Database/SOQLGrammar.php:67 | once the input has a `?`, running the rewrite a second time changes the string again, so the rewrite is not idempotent |
| `SOQLGrammar.WhereBasic` | src/Database/SOQLGrammar.php:56-69 | when the lower-cased operator contains "not like", the result is exactly `(not wrap(column) like wrap(value))`; otherwise, measured against the parent's output with backticks removed, the result has no backtick, the same number of `?`, is 2 characters longer per `?`, and un-quoting it gives back that stripped output |
| `SOQLGrammar.WhereBasicNotLikeIgnoresParent` | src/Database/SOQLGrammar.php:58-63 | on the "not like" path, swapping in any other `parent::whereBasic` gives the same result, so the parent is never consulted |
| `SOQLGrammar.WhereExample` | src/Database/SOQLGrammar.php:58-63 | with plain-name wrapping, `Name not like '%Corp%'` compiles to `(not Name like '%Corp%')` |
| `SOQLGrammar.RelationshipPath` | src/Database/SOQLGrammar.php:86 | the relationship name made from the pluralised, wrapped table has no backtick |
| `SOQLGrammar.Subquery` | src/Database/SOQLGrammar.php:87 | the subquery text is non-empty, starts with a comma and ends with a closing parenthesis |
| `SOQLGrammar.JoinFragment` | src/Database/SOQLGrammar.php:81-87 | one join's text after `trim` is non-empty, starts with a comma and ends with a closing parenthesis |
| `SOQLGrammar.JoinFragmentIsSubquery` | src/Database/SOQLGrammar.php:81-87 | a join is exactly `, (select <objectFields(table, ["*"]) joined by commas> from <relationship path>)`, so the `trim` removes nothing |
| `SOQLGrammar.CompileJoins` | src/Database/SOQLGrammar.php:78-89 | no joins compile to the empty string |
| `SOQLGrammar.Fragments` | src/Database/SOQLGrammar.php:80-87 | the mapped collection has exactly one fragment per join |
| `SOQLGrammar.FragmentsAppend` | src/Database/SOQLGrammar.php:80-87 | mapping a concatenation of joins gives the two runs of fragments, in input order |
| `SOQLGrammar.CompileJoinsSingle` | src/Database/SOQLGrammar.php:80-88 | one join compiles to exactly its own fragment |
| `SOQLGrammar.CompileJoinsConcat` | src/Database/SOQLGrammar.php:80-88 | compiling two non-empty runs of joins one after the other equals compiling each run, with one space between them; the fragments therefore appear in input order |
| `SOQLGrammar.CompileJoinsSnoc` | src/Database/SOQLGrammar.php:88 | adding a join at the end appends a single space and that join's fragment |
| `SOQLGrammar.CompileJoinsLength` | src/Database/SOQLGrammar.php:80-88 | the result is as long as the fragments together plus one space per gap, so no other text is added |
| `SOQLGrammar.JoinExample` | src/Database/SOQLGrammar.php:80-88 | a join to Contact, whose fields are Id and Name and whose plural is Contacts, compiles to `, (select Id,Name from Contacts)` |
| `SOQLGrammar.ConcatenateWhereClauses` | src/Database/SOQLGrammar.php:98-102 | the result always starts with `where `; the rest is `removeLeadingBoolean` applied to the fragments joined by single spaces |
| `SOQLGrammar.CompileAggregate` | src/Database/SOQLGrammar.php:111-121 | the result is `select F(C) aggregate`; C is `distinct ` plus the columnized columns when the query is distinct and those columns are not `*`; otherwise C is the columnized columns |
| `SOQLGrammar.CompileAggregateDistinct` | src/Database/SOQLGrammar.php:117-119 | the argument is `distinct ` plus the columns if and only if the query is distinct and the columns are not `*` |
| `SOQLGrammar.CompileAggregateWildcard` | src/Database/SOQLGrammar.php:117-120 | when the columns are `*` the result is `select F(*) aggregate` whether or not the query is distinct |
| `SOQLGrammar.CountExample` | src/Database/SOQLGrammar.php:111-121 | a distinct `count` over `*` gives `select count(*) aggregate` |
| `SOQLGrammar.SumExample` | src/Database/SOQLGrammar.php:111-121 | a distinct `sum` over Amount gives `select sum(distinct Amount) aggregate` |
| `Strings.Replace` | src/Database/SOQLGrammar.php:46 | `str_replace` with a one-character needle: the result contains only replacement characters and input characters other than the needle |
| `Strings.ReplaceSingle` | src/Database/SOQLGrammar.php:46 | on a one-character string, the needle becomes the replacement and any other character is kept |
| `Strings.ReplaceAppend` | src/Database/SOQLGrammar.php:46 | replacing distributes over concatenation; with `ReplaceSingle` this fixes the result of every input |
| `Strings.ReplaceLength` | src/Database/SOQLGrammar.php:46 | each occurrence of the needle costs one character and brings in the replacement's length |
| `Strings.ReplaceAbsent` | src/Database/SOQLGrammar.php:46 | replacing a character that does not occur leaves the string unchanged |
| `Strings.ReplaceKeepsCount` | src/Database/SOQLGrammar.php:67 | when the replacement holds the needle exactly once, the needle's count is unchanged |
| `Strings.EraseIsSubsequence` | src/Database/SOQLGrammar.php:46 | deleting every occurrence of a character leaves a subsequence of the input |
| `Strings.EraseUnique` | src/Database/SOQLGrammar.php:46 | deletion is the only subsequence that avoids the character and has the input's length minus its occurrences |
| `Strings.Lower` | src/Database/SOQLGrammar.php:58 | `strtolower` keeps the length, maps each character by ASCII lower-casing, and leaves no upper-case letter |
| `Strings.LowerAppend` | src/Database/SOQLGrammar.php:58 | lower-casing a concatenation is the concatenation of the lower-cased parts |
| `Strings.Contains` | src/Database/SOQLGrammar.php:58 | `Str::contains` holds only for a non-empty needle that is no longer than the haystack |
| `Strings.ContainsExtended` | src/Database/SOQLGrammar.php:58 | a needle found in a string is still found after any text is added on either side |
| `Strings.Join` | src/Database/SOQLGrammar.php:84 | `implode` (also used at :88 and :101): no contract of its own; `JoinSingleton`, `JoinConcat` and `JoinLength` together determine it on every list of pieces |
| `Strings.JoinSingleton` | src/Database/SOQLGrammar.php:84 | `implode` of no pieces is empty, and of one piece is that piece with no separator |
| `Strings.JoinLength` | src/Database/SOQLGrammar.php:84 | `implode` output is the pieces' total length plus one separator per gap |
| `Strings.JoinConcat` | src/Database/SOQLGrammar.php:88 | `implode` of a concatenation equals the two implodes with one separator between them |
| `Strings.Trim` | src/Database/SOQLGrammar.php:87 | the result of `trim` neither starts nor ends with a trim character; a string already starting and ending with other characters is returned unchanged |
| `Strings.TrimIsWindow` | src/Database/SOQLGrammar.php:87 | the result of `trim` is a contiguous slice of the input, and every character outside that slice is a trim character, so only leading and trailing trim characters are removed |

## Left out

- Inherited Laravel `Grammar` behaviour (`parent::whereBasic`, `wrap`, `wrapTable`, `columnize`, `removeLeadingBoolean`) is not part of this model. It is kept abstract as fields of `Collaborators`.
- The inherited `compileSelect`, which walks the select components, is not modelled. The components are only a constant list (`SELECT_COMPONENTS`) with its order proved.
- `ServiceProvider::objectFields` performs a live Salesforce metadata lookup (network and cache I/O). It is an abstract total function. A failed lookup, which the source lets propagate as an exception, is not modelled.
- `str_plural` is English inflection from a library outside this model. It is an abstract function.
- Binding substitution and query execution against the Salesforce API happen elsewhere and are not modelled.
- Type-aware literal quoting is not modelled. The code quotes every `?` whatever the type of the bound value, and the model does the same.
- `SOQLGrammar.ConcatenateWhereClauses`: does not state that the output never starts with a redundant `and`/`or`, because that depends entirely on the inherited `removeLeadingBoolean`, which is abstract here.
- `Strings.Lower`: lower-cases ASCII letters only, as `strtolower` does from PHP 8.2 on; the locale-dependent behaviour of older PHP versions is not modelled.
- The query builder's state apart from `distinct`, and a where entry's value apart from a string, are not modelled; this grammar hands them unread to the inherited renderers.
