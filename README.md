# SearchableExpression, modelled in Dafny

`vxm\search\SearchableExpression` builds a condition that limits a Yii
ActiveQuery to the record ids a search index returned. The condition is
`{{alias}}.[[key]] IN ids`. Here `key` is the searchable key column of the
query's model class, and `alias` is the name the query's FROM clause gives
that table. The model has three parts:

- `wrappers.dfy`: the `Option`, `Outcome` and `Result` values used in place of exceptions.
- `alias_pattern.dfy` (module `AliasPattern`): the PCRE pattern
  `^(.*?)\s+({{\w+}}|\w+)$`. It is written two ways. `Matches(s, p, ws, tok)`
  is the declarative reading: `s` is `p + ws + tok`, optionally followed by the
  one line feed that `$` may stand before. `p` holds no line feed, `ws` is a
  non-empty run of `\s`, and `tok` is `\w+` or `{{\w+}}`. `TrailingAlias` is
  the direct computation: take the text after the last whitespace character
  and check the whitespace run in front of it. Two lemmas prove the two
  agree. One says every match yields the computed capture, which is then the
  only possible group 2. The other says every computed capture comes from a
  match.
- `searchable_expression.dfy` (module `Searchable`): the query and condition
  datatypes, `TableNameAndAlias` (`getTableNameAndAlias`), the class
  `SearchableExpression` with its fields `query` and `ids`, `Init` (`init`) and
  `GetCondition` (`getCondition`), and `Create`, which is configuration
  followed by `init()` as Yii's `BaseObject` constructor performs it.

The model class's `tableName()` and `searchableKey()` are given strings
(`ModelClass`). A query is its model class plus its `from` array. That array is
`Option<seq<(Key, string)>>`, with keys either `StrKey` or `IntKey`, in
insertion order.

Two behaviours of the code are worth noting:
- An entry returns at once whenever its key is a string (`is_string`), so
  the key `""` gives alias `""` (`ExplicitAliasReturned`).
- `from` is always an array here, because Yii's `Query::from()` splits a
  string into an integer-keyed array before this code sees it.

## Model

| member | source | states |
|---|---|---|
| `AliasPattern.IsSpace` | src/SearchableExpression.php:92 | no contract; the class `\s`: space, tab, line feed, vertical tab, form feed, carriage return |
| `AliasPattern.IsWordChar` | src/SearchableExpression.php:92 | no contract; the class `\w`: ASCII letters, digits and underscore |
| `AliasPattern.IsWord` | src/SearchableExpression.php:92 | no contract; `\w+`: a non-empty run of word characters |
| `AliasPattern.AllSpace` | src/SearchableExpression.php:92 | no contract; every character is `\s`, the body of `\s+` (non-emptiness is required separately in Matches) |
| `AliasPattern.IsAliasToken` | src/SearchableExpression.php:92 | no contract; the alternation of `{{\w+}}` and `\w+`; its shape is stated by TokenHasNoSpace |
| `AliasPattern.Matches` | src/SearchableExpression.php:92 | no contract; the declarative reading of the whole pattern, `p + ws + tok` with an optional final line feed; related to the computation by TrailingAliasSound/Complete/None |
| `AliasPattern.TrailingAlias` | src/SearchableExpression.php:92-93 | no contract; `preg_match` and `$matches[2]`; characterised by TrailingAliasSound/Complete/None |
| `AliasPattern.SubjectEnd` | src/SearchableExpression.php:92 | the token must end at the end of the subject or just before one final line feed (`$` without the D modifier), and it ends before the end exactly when the subject ends in a line feed |
| `AliasPattern.TokenStart` | src/SearchableExpression.php:92 | the start of the whitespace-free stretch ending at a position, characterised by: no whitespace after it and whitespace (or the start) just before it |
| `AliasPattern.RunStart` | src/SearchableExpression.php:92 | the start of the maximal whitespace run ending at a position: all whitespace inside, no whitespace (or the start) just before it |
| `AliasPattern.TokenHasNoSpace` | src/SearchableExpression.php:92 | a `{{\w+}}` or `\w+` token is non-empty, holds no `\s` character and does not end in a line feed |
| `AliasPattern.TokenStartAt` | src/SearchableExpression.php:92 | any stretch with the characterising properties is the one TokenStart finds (uniqueness) |
| `AliasPattern.RunStartAtMost` | src/SearchableExpression.php:92 | any whitespace run ending at `j` lies within the run RunStart finds |
| `AliasPattern.TrailingAliasComplete` | src/SearchableExpression.php:92-93 | whenever the subject decomposes as `p + ws + tok` (plus an optional final line feed) the way the pattern requires, the computed capture is exactly `tok`: the match is found, and group 2 does not depend on where the lazy `(.*?)` stops |
| `AliasPattern.TrailingAliasSound` | src/SearchableExpression.php:92-93 | every capture the computation returns comes from a decomposition the pattern accepts |
| `AliasPattern.TrailingAliasNone` | src/SearchableExpression.php:92-96 | when the computation finds nothing, no decomposition of the subject fits the pattern |
| `Searchable.FromIsEmpty` | src/SearchableExpression.php:79 | no contract; PHP's `empty($query->from)`: `from` unset or an empty array |
| `Searchable.HasExplicitAlias` | src/SearchableExpression.php:84-85 | no contract; `from` is non-empty and the key of its first entry is a string, the `is_string($alias)` test |
| `Searchable.SearchableExpression.Valid` | src/SearchableExpression.php:40-46 | no contract; the state both guards of `init()` accept: `ids` non-empty and `query` set; Init passes exactly when it holds |
| `Searchable.AliasOf` | src/SearchableExpression.php:92-96 | no contract; the captured token, or the whole raw name when nothing matches; characterised by TrailingTokenIsAlias, UnmatchedNameIsAlias and RawAliasCases |
| `Searchable.QualifiedColumn` | src/SearchableExpression.php:62 | no contract; the column text `{{alias}}.[[key]]`; QualifiedColumnDeterminesAlias shows it determines the alias |
| `Searchable.TableNameAndAlias` | src/SearchableExpression.php:73-99 | the returned table name is the default table name when `from` is empty and otherwise the first entry's full value, never just the part before the alias |
| `Searchable.TrailingTokenIsAlias` | src/SearchableExpression.php:92-98 | without an explicit alias key, a raw name that matches the pattern with last token `tok` resolves to `(raw name, tok)` |
| `Searchable.UnmatchedNameIsAlias` | src/SearchableExpression.php:92-96 | without an explicit alias key, a raw name that matches no decomposition of the pattern is its own alias |
| `Searchable.RawAliasCases` | src/SearchableExpression.php:79-98 | without an explicit alias key, the alias is either the pattern's group 2 of some match of the raw name, or the raw name itself when nothing matches |
| `Searchable.ExplicitAliasReturned` | src/SearchableExpression.php:84-87 | a first entry `alias => table` is returned as `(table, alias)` with no parsing, for every string alias including `""` |
| `Searchable.OnlyFirstEntryConsulted` | src/SearchableExpression.php:84-89 | entries after the first never change the resolved table name or alias |
| `Searchable.IntKeyActsAsDefaultTable` | src/SearchableExpression.php:79-92 | an integer-keyed first entry resolves exactly as an empty `from` whose default table name is that entry's value |
| `Searchable.SearchableExpression.Configure` | src/SearchableExpression.php:24-32 | the public properties `query` and `ids` hold the configured values |
| `Searchable.SearchableExpression.Init` | src/SearchableExpression.php:38-49 | empty `ids` fails with the ids error whatever `query` is; non-empty `ids` with a null `query` fails with the query error; it passes exactly when both are set |
| `Searchable.Create` | src/SearchableExpression.php:38-49 | an object is obtained only when `init()` passes, with the configured `query` and `ids`; otherwise the ids error takes precedence over the query error |
| `Searchable.SearchableExpression.GetCondition` | src/SearchableExpression.php:57-65 | the condition's column is `{{alias}}.[[key]]` for the resolved alias and the model's searchable key, its operator is `IN` and its values are `ids` unchanged; it only reads the object |
| `Searchable.QualifiedColumnDeterminesAlias` | src/SearchableExpression.php:62 | for a fixed key, different aliases give different column texts, so the column names the resolved alias |
| `Searchable.ConditionDependsOnlyOnState` | src/SearchableExpression.php:57-65 | two expressions with the same `query` and `ids` build equal conditions (repeated calls agree) |
| `Searchable.ExampleDefaultTable` | src/SearchableExpression.php:79-98 | no `from` and table name `user` give `("user", "user")` |
| `Searchable.ExampleTrailingAlias` | src/SearchableExpression.php:84-98 | the unkeyed entry `user_table t` gives `("user_table t", "t")` |
| `Searchable.ExampleBareTable` | src/SearchableExpression.php:84-98 | the unkeyed entry `user_table` gives `("user_table", "user_table")` |
| `Searchable.ExampleBracedTable` | src/SearchableExpression.php:92-96 | the raw-name parse of `{{%user}}` captures nothing, so the name is its own alias |
| `Searchable.ExamplePrefixedBracedTable` | src/SearchableExpression.php:92-96 | the raw-name parse of `x {{%user}}` captures nothing, so the name is its own alias, because `%` is not a word character |
| `Searchable.ExampleInvalidToken` | src/SearchableExpression.php:92-96 | the raw-name parse of `user u-x` captures nothing, so the name is its own alias, because `-` is not a word character |
| `Searchable.ExampleDefaultCondition` | src/SearchableExpression.php:57-65 | no `from`, table `user`, key `id` and ids 1, 2, 3 give `{{user}}.[[id]] IN [1, 2, 3]` |
| `Searchable.ExampleAliasedCondition` | src/SearchableExpression.php:57-65 | `from = ['u' => 'user_table']`, key `uid` and ids `a`, `b` give `{{u}}.[[uid]] IN ['a', 'b']` |

## Left out

- ActiveQuery, ActiveRecord, `InCondition` and the rendering of `{{…}}` and `[[…]]` into quoted SQL are Yii code. The model class is two given strings. The condition is a plain value.
- `from` values that are `ExpressionInterface` objects or subqueries are not modelled. Every value is a string.
- PHP's conversion of numeric-string array keys (such as `"1"`) to integers is not modelled. Keys are given directly as `StrKey` or `IntKey`.
- `ids` set to `null`, and other non-array values, are not modelled. `ids` is a sequence, and `empty()` is modelled as the empty sequence.
- `\s` and `\w` follow PCRE's default C-locale tables: ASCII whitespace (space, tab, LF, VT, FF, CR) and `[A-Za-z0-9_]`. Tables that PHP builds for other locales are not modelled. Characters outside ASCII belong to neither class.
- `preg_match` returning `false` on an engine error, such as the backtrack limit on a very long subject, is not modelled. In that case the code uses the whole name as the alias.
- `BaseObject::init()` and the rest of Yii's configuration plumbing are left out. The exception classes and their messages become the `ConfigError` values `IdsNotSet` and `QueryNotSet`.
- A PHP call of `getCondition()` on a null `query` fails inside PHP. The model's `requires query.Some?` excludes that call.
