# Essence core logic in Dafny

A model of the decision logic inside the Cedita Essence libraries for
ASP.NET Core and Entity Framework Core, with proofs about it:

- **API-key authentication.** From the request headers, the query string,
  the options and a key store, the handler produces one of three outcomes:
  no result, a failure, or a ticket. The options record and its defaults
  are modelled too.
- **Route matching in tag helpers.** A string `entry;entry;...` is compared
  with the current route value. Each entry is `base` or `base[name=value]`.
  Page entries get a leading '/'. A malformed entry makes the comparison
  throw.
- **Date-modified triggers.** Each audited entity type gets a table name:
  an override if there is one, otherwise a pluralised type name. That name
  is substituted into a T-SQL trigger script.
- **The HTTP-context security driver.** This covers testing for a claim,
  reading a claim as a string or a boolean, and adding or replacing a claim
  on the user's first identity.
- **Type extensions.** This covers finding a declared field along the
  base-type chain, and deciding whether a type is assignable from a generic
  type definition.

Modules and their files:

| module | file |
|---|---|
| `Results` | `results.dfy` |
| `Text` | `text.dfy` |
| `Requests` | `requests.dfy` |
| `Claims` | `claims.dfy` |
| `ApiKeyOptions` | `api_key_options.dfy` |
| `ApiKeyAuthentication` | `api_key_authentication.dfy` |
| `RouteMatch` | `route_match.dfy` |
| `DateModifiedTriggers` | `date_modified_triggers.dfy` |
| `SecurityDriver` | `security_driver.dfy` |
| `TypeExtensions` | `type_extensions.dfy` |

What each module holds:

- `Results` has `Option` and `Result`:
  - `None` stands for a .NET null.
  - `Err` stands for a thrown exception.
- `Text` has the .NET string behaviour the core relies on:
  - `char.IsWhiteSpace`, with its exact character set;
  - ASCII lower-casing and comparison that ignores case;
  - `IndexOf`, `LastIndexOf`, `Split` and `Join`;
  - a split that drops empty entries.
- `Requests` models header and query collections. Each is a map from the
  lower-cased name to a list of values, because the host compares names
  ignoring case.
- `Claims` has claims, identities and principals.

Inputs the source obtains from its host are parameters here:

- the current request (headers and query);
- the current route values;
- the current user (a `Principal`);
- the API-key store (a map from key to key record);
- the audited entity types and the `IdentityUser<>` type record.

## Model

| member | source | states |
|---|---|---|
| ApiKeyOptions.Defaults | Cedita.Essence.AspNetCore/ApiKeyAuthenticationOptions.cs:10-42 | The default header is "X-Api-Key" and the default query parameter is "apiKey". The default claim types are "name" and "role". Header authentication is on and query authentication is off. The scheme is the constant "API Key". |
| ApiKeyAuthentication.UsableKey | Cedita.Essence.AspNetCore/Security/ApiKeyAuthenticationHandler.cs:30-47 | A key taken from a request source is never null or white space. |
| ApiKeyAuthentication.CandidateKey | Cedita.Essence.AspNetCore/Security/ApiKeyAuthenticationHandler.cs:28-47 | The key the handler ends up with is blank exactly when the request presents no usable key: no non-blank header key, and no non-blank query key. Otherwise it is the header key, or failing that the query key. |
| ApiKeyAuthentication.ClaimsFor | Cedita.Essence.AspNetCore/Security/ApiKeyAuthenticationHandler.cs:61-69 | The first claim is NameIdentifier with the user id. The record's additional claims follow in order. A null list of additional claims gives exactly one claim. |
| ApiKeyAuthentication.TicketFor | Cedita.Essence.AspNetCore/Security/ApiKeyAuthenticationHandler.cs:71-80 | The ticket has one identity. Both the ticket scheme and the authentication type are "API Key". The identity reads names and roles from the configured claim types. An empty option falls back to the identity's default name or role claim type. |
| Claims.NewIdentity | Cedita.Essence.AspNetCore/Security/ApiKeyAuthenticationHandler.cs:75-79 | A new identity keeps its claims and authentication type. An empty name or role claim type is replaced by the default one. |
| ApiKeyAuthentication.Authenticate | Cedita.Essence.AspNetCore/Security/ApiKeyAuthenticationHandler.cs:26-85 | NoResult exactly when no usable key is presented. Fail with "Invalid API Key." exactly when a key is presented that the store does not know. Otherwise Success, with the ticket for the stored record. |
| ApiKeyAuthentication.HeaderDisabledIgnoresHeaders | Cedita.Essence.AspNetCore/Security/ApiKeyAuthenticationHandler.cs:30-37 | With header authentication off, any two header collections give the same outcome. |
| ApiKeyAuthentication.HeaderKeyWins | Cedita.Essence.AspNetCore/Security/ApiKeyAuthenticationHandler.cs:39 | A usable header key is the key used. The query string then cannot change the outcome. |
| ApiKeyAuthentication.BlankHeaderFallsThrough | Cedita.Essence.AspNetCore/Security/ApiKeyAuthenticationHandler.cs:39-45 | A missing, null or white-space header value gives the same outcome as header authentication switched off. |
| ApiKeyAuthentication.OnlyFirstValueCounts | Cedita.Essence.AspNetCore/Security/ApiKeyAuthenticationHandler.cs:35-43 | Values after the first one of the header or query entry never change the outcome. |
| ApiKeyAuthentication.NoKeyMeansNoResult | Cedita.Essence.AspNetCore/Security/ApiKeyAuthenticationHandler.cs:47-51 | Without a usable key the outcome is NoResult, whatever the key store holds. |
| ApiKeyAuthentication.BothDisabledNoResult | Cedita.Essence.AspNetCore/Security/ApiKeyAuthenticationHandler.cs:30-51 | With both sources disabled the outcome is always NoResult. |
| ApiKeyAuthentication.DefaultsIgnoreQuery | Cedita.Essence.AspNetCore/ApiKeyAuthenticationOptions.cs:37-42 | Under the default options the query string never changes the outcome. |
| ApiKeyAuthentication.SuccessClaims | Cedita.Essence.AspNetCore/Security/ApiKeyAuthenticationHandler.cs:61-84 | On success the claims are the user-id claim followed by the additional claims. A null or empty list gives one claim. The scheme is "API Key". |
| RouteMatch.RouteKey | Cedita.Essence.AspNetCore/TagHelpers/RouteBasedTagHelper.cs:27-39 | The route value is read under "area", "controller", "action" or "page". |
| RouteMatch.NormalisePage | Cedita.Essence.AspNetCore/TagHelpers/RouteBasedTagHelper.cs:55-58 | A page entry starts with '/' afterwards. It is left unchanged exactly when it already did. |
| RouteMatch.Normalise | Cedita.Essence.AspNetCore/TagHelpers/RouteBasedTagHelper.cs:50-60 | For pages, every entry starts with '/'. An entry that did is unchanged, and any other entry becomes '/' followed by the entry. Other options are left alone. The count of entries is kept. |
| RouteMatch.NormaliseIdempotent | Cedita.Essence.AspNetCore/TagHelpers/RouteBasedTagHelper.cs:50-60 | Normalising twice is normalising once. |
| RouteMatch.UpToEquals | Cedita.Essence.AspNetCore/TagHelpers/RouteBasedTagHelper.cs:79-85 | The result is the longest prefix without '='. It is the whole string when there is no '=', and otherwise it stops right before the first '='. The value part of an entry is read this way from the text after its first '='. |
| RouteMatch.ParseEntry | Cedita.Essence.AspNetCore/TagHelpers/RouteBasedTagHelper.cs:71-75 | An entry without '[' parses to its base alone. |
| RouteMatch.ParseEntryErrors | Cedita.Essence.AspNetCore/TagHelpers/RouteBasedTagHelper.cs:77-85 | A bracketed entry throws exactly when no ']' follows its first '['. It also throws exactly when the text between the first '[' and the last ']' has no '='. Only bracketed entries throw. |
| RouteMatch.ParseEntryParts | Cedita.Essence.AspNetCore/TagHelpers/RouteBasedTagHelper.cs:77-86 | A well-formed entry yields three parts. The base is the text before the first '['. The name and value are the first and second '='-separated parts of the bracket text, both lower-cased. |
| RouteMatch.RenderedBrackets | Cedita.Essence.AspNetCore/TagHelpers/RouteBasedTagHelper.cs:77-79 | In a rendered entry `base[name=value]` whose base has no '[', the first '[' ends the base and the last ']' ends the entry. The text between them is `name=value`. |
| RouteMatch.ParseRendered | Cedita.Essence.AspNetCore/TagHelpers/RouteBasedTagHelper.cs:77-86 | Rendering `base[name=value]` and parsing it back gives base, lower-cased name and lower-cased value. This holds when the base has no '[' and neither name nor value has '='. |
| Results.Collect | Cedita.Essence.AspNetCore/TagHelpers/RouteBasedTagHelper.cs:68-87 | A list of results collects to all the values, in order, exactly when every result succeeded. Otherwise it gives the error of the first failure. |
| RouteMatch.ParseAll | Cedita.Essence.AspNetCore/TagHelpers/RouteBasedTagHelper.cs:68-87 | Parsing succeeds exactly when every entry parses, and keeps one match per entry. Otherwise it fails with the error of the first malformed entry. |
| RouteMatch.MatchEntries | Cedita.Essence.AspNetCore/TagHelpers/RouteBasedTagHelper.cs:62-104 | The comparison throws exactly when some entry is malformed, reporting the first one. Otherwise it answers true exactly when some entry parses and hits. |
| RouteMatch.Matches | Cedita.Essence.AspNetCore/TagHelpers/RouteBasedTagHelper.cs:37-105 | The registered comparison never throws for a match string without '['. It never answers true when the route value is missing. |
| RouteMatch.MatchesEntries | Cedita.Essence.AspNetCore/TagHelpers/RouteBasedTagHelper.cs:45-105 | The registered comparison equals the list comparison over the match string split on ';' with empty entries dropped and, for pages, a leading '/' added, so every characterisation of `MatchEntries` carries over to it. |
| RouteMatch.NoBrackets | Cedita.Essence.AspNetCore/TagHelpers/RouteBasedTagHelper.cs:47-65 | When the match string has no '[', no split entry has one, with or without the page '/' in front, so every entry parses. |
| RouteMatch.PageEntryGetsSlash | Cedita.Essence.AspNetCore/TagHelpers/RouteBasedTagHelper.cs:51-64 | A single page entry without a leading '/' matches exactly when the route value equals '/' followed by the entry, ignoring case. |
| RouteMatch.NothingButSeparatorsNeverMatches | Cedita.Essence.AspNetCore/TagHelpers/RouteBasedTagHelper.cs:47-48 | An empty match string, or one of ';' only, yields no entries and answers false. |
| RouteMatch.PlainEntries | Cedita.Essence.AspNetCore/TagHelpers/RouteBasedTagHelper.cs:62-65 | Without brackets, the answer is true exactly when some entry equals the route value ignoring case. |
| RouteMatch.BracketedEntry | Cedita.Essence.AspNetCore/TagHelpers/RouteBasedTagHelper.cs:89-104 | `base[name=value]` matches exactly when the base equals the route value and the query parameter `name` equals `value`, both ignoring case. |
| RouteMatch.ReorderingKeepsResult | Cedita.Essence.AspNetCore/TagHelpers/RouteBasedTagHelper.cs:64-89 | Permuting the entries changes neither whether the comparison throws nor its answer. |
| RouteMatch.SameEntriesSameResult | Cedita.Essence.AspNetCore/TagHelpers/RouteBasedTagHelper.cs:64-89 | Only which entries occur matters, not their positions or repetitions. |
| RouteMatch.SameEntriesOneWay | Cedita.Essence.AspNetCore/TagHelpers/RouteBasedTagHelper.cs:64-89 | A list that parses has every sub-list parse too. A true answer of a sub-list carries over to the list. |
| RouteMatch.AllParse | Cedita.Essence.AspNetCore/TagHelpers/RouteBasedTagHelper.cs:68-87 | If every entry of a list parses, so does every entry drawn from it. |
| RouteMatch.AddingEntryKeepsMatch | Cedita.Essence.AspNetCore/TagHelpers/RouteBasedTagHelper.cs:89 | A list whose entries all parse, one of them hitting, matches. Adding an entry to it never turns true into false. It can only make the comparison throw, and only when the new entry is malformed. |
| RouteMatch.ExtendedEntries | Cedita.Essence.AspNetCore/TagHelpers/RouteBasedTagHelper.cs:68-89 | Appending an entry that parses keeps every entry parsing and keeps the entry that hits. |
| DateModifiedTriggers.Pluralise | Cedita.Essence.EntityFrameworkCore/SqlServer/DateModifiedTriggerGenerator.cs:41-52 | The plural is longer and ends in 's'. It keeps the name except for a final 'y'. |
| DateModifiedTriggers.PluraliseSuffix | Cedita.Essence.EntityFrameworkCore/SqlServer/DateModifiedTriggerGenerator.cs:41-52 | A final 's' takes "es". A final 'y' is replaced by "ies". Anything else, including 'S' and 'Y', takes "s". |
| DateModifiedTriggers.PluraliseTwice | Cedita.Essence.EntityFrameworkCore/SqlServer/DateModifiedTriggerGenerator.cs:41-52 | Pluralising a plural appends "es". |
| DateModifiedTriggers.TableName | Cedita.Essence.EntityFrameworkCore/SqlServer/DateModifiedTriggerGenerator.cs:28-53 | An override is used verbatim. Without one, the name ends in 's'. It is "AspNetUsers" when the identity-user branch fires. Otherwise it is longer than the type name and keeps it but for the last character. The type name must be non-empty only in that last case. |
| DateModifiedTriggers.TriggerSqlLines | Cedita.Essence.EntityFrameworkCore/SqlServer/DateModifiedTriggerGenerator.cs:56-70 | Each of these is a whole line of the script: the drop of `[name_UPD_DM]`, the creation of `[dbo].[name_UPD_DM]` on `[dbo].[name]`, `AFTER UPDATE`, `UPDATE dbo.name`, and the `SET DateModified` line. |
| DateModifiedTriggers.TriggerSqlStart | Cedita.Essence.EntityFrameworkCore/SqlServer/DateModifiedTriggerGenerator.cs:56-57 | The script opens with an empty line, then `IF OBJECT_ID ('[`, then the table name. |
| DateModifiedTriggers.TriggerSqlLength | Cedita.Essence.EntityFrameworkCore/SqlServer/DateModifiedTriggerGenerator.cs:56-70 | The table name appears five times in the script, so the script is five characters longer per character of the name. |
| DateModifiedTriggers.TriggerSqlInjective | Cedita.Essence.EntityFrameworkCore/SqlServer/DateModifiedTriggerGenerator.cs:55-70 | Different table names give different scripts. |
| DateModifiedTriggers.IdentityBranchTaken | Cedita.Essence.EntityFrameworkCore/SqlServer/DateModifiedTriggerGenerator.cs:19-39 | The "AspNetUser" branch fires exactly when `IAuditDates` is assignable from the identity-user type. That is the same for every entity type. |
| DateModifiedTriggers.GetTriggersSql | Cedita.Essence.EntityFrameworkCore/SqlServer/DateModifiedTriggerGenerator.cs:24-73 | There is one script per audited type. |
| DateModifiedTriggers.GeneratedScriptsStamp | Cedita.Essence.EntityFrameworkCore/SqlServer/DateModifiedTriggerGenerator.cs:26-70 | The script of each type drops and re-creates the trigger `[table_UPD_DM]` on `[dbo].[table]`, where the table is that type's table name. The trigger updates `dbo.table` and sets `DateModified`. Each of these is a line of its own. |
| DateModifiedTriggers.NullOverridesAreEmpty | Cedita.Essence.EntityFrameworkCore/SqlServer/DateModifiedTriggerGenerator.cs:29 | A null override map gives the same scripts as an empty one. |
| SecurityDriver.FirstOfType | Cedita.Essence.AspNetCore/Security/HttpContextSecurityDriver.cs:76 | `FindFirst` on one identity finds nothing exactly when no claim type matches ignoring case. Otherwise it finds the first match. |
| SecurityDriver.FirstOfTypeAppend | Cedita.Essence.AspNetCore/Security/HttpContextSecurityDriver.cs:76 | The first match in a concatenation is the first match of the front part, or else of the back part. |
| SecurityDriver.FindFirstOverAllClaims | Cedita.Essence.AspNetCore/Security/HttpContextSecurityDriver.cs:25-76 | Searching identity by identity finds the first match among all the principal's claims. |
| SecurityDriver.HasClaim | Cedita.Essence.AspNetCore/Security/HttpContextSecurityDriver.cs:74-78 | True exactly when some claim of some identity has that type, ignoring case. |
| SecurityDriver.GetClaimString | Cedita.Essence.AspNetCore/Security/HttpContextSecurityDriver.cs:23-51 | Null exactly when there is no such claim. Otherwise it is the unchanged value of the first matching claim. |
| SecurityDriver.GetClaimBool | Cedita.Essence.AspNetCore/Security/HttpContextSecurityDriver.cs:23-40 | True exactly when the first matching claim's value is "true" ignoring case, or exactly "1". A missing claim gives false. |
| SecurityDriver.SelectAppend | Cedita.Essence.AspNetCore/Security/HttpContextSecurityDriver.cs:63-69 | Selecting claims by type distributes over concatenation, both for that type and for all others. |
| SecurityDriver.ExactIndex | Cedita.Essence.AspNetCore/Security/HttpContextSecurityDriver.cs:63-65 | This is the position of the first claim whose type equals the given one exactly, or -1 exactly when there is none. |
| SecurityDriver.RemoveFirstOfTypeSpec | Cedita.Essence.AspNetCore/Security/HttpContextSecurityDriver.cs:63-67 | Without a claim of that exact type nothing is removed. Otherwise exactly the first such claim is cut out. |
| SecurityDriver.AddOrUpdateClaim | Cedita.Essence.AspNetCore/Security/HttpContextSecurityDriver.cs:54-70 | The update fails with "ClaimsIdentity not found and can not be updated." exactly when the user has no identity. Otherwise only the first identity's claims change, and its last claim is the new one. |
| SecurityDriver.UpdateRemovesFirst | Cedita.Essence.AspNetCore/Security/HttpContextSecurityDriver.cs:63-69 | The claim the update removes is the first claim whose type equals the given type exactly, and only that one. The identity's claims become the old claims with it cut out, followed by the new claim. Without such a claim nothing is removed. |
| SecurityDriver.UpdateKeepsOtherClaims | Cedita.Essence.AspNetCore/Security/HttpContextSecurityDriver.cs:63-69 | The count of claims of the updated type stays the same if it was at least one, and becomes one otherwise. Claims of other types keep their values and order. |
| SecurityDriver.RemoveCounts | Cedita.Essence.AspNetCore/Security/HttpContextSecurityDriver.cs:63-67 | Removing the first claim of the type lowers that type's count by one if it was positive. Claims of other types are kept, in order. |
| SecurityDriver.NoneSelected | Cedita.Essence.AspNetCore/Security/HttpContextSecurityDriver.cs:63 | A list without a claim of that exact type has none of it to select, and all of it among the other types. |
| SecurityDriver.UpdateThenHasClaim | Cedita.Essence.AspNetCore/Security/HttpContextSecurityDriver.cs:69-78 | After a successful update the user has a claim of that type. |
| TypeExtensions.Chain | Cedita.Essence/Extensions/TypeExtensions.cs:24-36 | The chain starts at the type. Each element's base type is the next element, and the last element has no base type. |
| TypeExtensions.DepthIsChainLength | Cedita.Essence/Extensions/TypeExtensions.cs:25-36 | The termination measure equals the length of the chain. |
| TypeExtensions.DeclaredField | Cedita.Essence/Extensions/TypeExtensions.cs:27-28 | A field found is declared by the type under that name. None is found exactly when the type declares no field of that name. |
| TypeExtensions.GetField | Cedita.Essence/Extensions/TypeExtensions.cs:17-39 | A null type or a null or empty name gives null. A found field is the one declared by the most derived type of the chain that declares the name. Null means no type of the chain declares it. |
| TypeExtensions.IsAssignableFromGenericType | Cedita.Essence/Extensions/TypeExtensions.cs:47-69 | True when an implemented interface is constructed from the definition, or when the type itself is. At the root the answer is exactly the direct checks. |
| TypeExtensions.GenericMatchOnChain | Cedita.Essence/Extensions/TypeExtensions.cs:47-69 | True exactly when some type of the base chain passes the direct checks. |
| TypeExtensions.BaseMatchLifts | Cedita.Essence/Extensions/TypeExtensions.cs:68 | If the base type qualifies, so does the type. |
| Text.IndexOf | Cedita.Essence.AspNetCore/TagHelpers/RouteBasedTagHelper.cs:77 | The position of the first occurrence, or -1 exactly when the character is absent. |
| Text.LastIndexOf | Cedita.Essence.AspNetCore/TagHelpers/RouteBasedTagHelper.cs:78 | The position of the last occurrence, or -1 exactly when the character is absent. |
| Text.JoinSplit | Cedita.Essence.AspNetCore/TagHelpers/RouteBasedTagHelper.cs:79 | Joining the parts of a split with the separator gives back the string. |
| Text.SplitJoin | Cedita.Essence.AspNetCore/TagHelpers/RouteBasedTagHelper.cs:79 | Splitting a join of separator-free parts gives back the parts. |
| Text.SplitEntriesEmpty | Cedita.Essence.AspNetCore/TagHelpers/RouteBasedTagHelper.cs:47-48 | A split that drops empty entries yields nothing exactly when the string is only separators. |
| Text.SplitEntriesJoin | Cedita.Essence.AspNetCore/TagHelpers/RouteBasedTagHelper.cs:47-48 | Non-empty, separator-free entries joined with the separator split back into exactly those entries when empty entries are dropped. |
| Text.SplitKeepsAbsent | Cedita.Essence.AspNetCore/TagHelpers/RouteBasedTagHelper.cs:47-48 | A character that is not in a string is in none of the parts of its split. |
| Text.SingleEntry | Cedita.Essence.AspNetCore/TagHelpers/RouteBasedTagHelper.cs:47-48 | A non-empty string without the separator splits into itself alone. |
| Text.JoinLength | Cedita.Essence.EntityFrameworkCore/SqlServer/DateModifiedTriggerGenerator.cs:55-70 | A join is as long as its parts together plus one separator between each two. |
| Text.WeightedTotal | Cedita.Essence.EntityFrameworkCore/SqlServer/DateModifiedTriggerGenerator.cs:55-70 | Parts that are each longer than their counterparts by a multiple of a length add up to a total longer by the sum of the multiples. |
| Requests.QueryValue | Cedita.Essence.AspNetCore/TagHelpers/RouteBasedTagHelper.cs:102-103 | A missing or empty query parameter reads as null. A single value reads as itself. |

## Left out

- Logging and `async`/`await` are left out. The key lookup is a pure map lookup, and exceptions raised by a key provider are not modelled.
- `SignInAsync` after a claim update is left out: it is a cookie and I/O side effect.
- The `int`, `long`, `decimal`, `double` and `float` branches of `GetClaimValue` are left out, because they are culture-dependent parsing and floating point.
- Assembly scanning in the trigger generator is left out. The types are an input: the classes assignable to `IAuditDates`, each with its name.
- `ModelBuilderExtensions`, the tag-helper attribute output and the comparison combinator (`AddComparison`, `ComparisonBasedTagHelper`) are left out. The qualifier callback is left out too: the model is the comparison itself.
- Culture-aware case folding is modelled as ASCII lower-casing, for both the invariant culture and ordinal ignore-case comparisons.
- The host's case-insensitive header, query and route-value dictionaries are modelled by maps whose keys are all lower-case, and every lookup lower-cases the name it asks for. Two names that differ only outside ASCII letters are not identified.
- `IndexOf("[", StringComparison.InvariantCulture)` and `LastIndexOf("]", StringComparison.InvariantCulture)` are culture-sensitive searches. They are modelled as ordinal character searches. A bracket followed by a combining mark, as in `a[\u0301b=c]`, may be found by the model and not by the host's linguistic search.
- `IsNullOrWhitespace` is an extension method that is not part of this model. It is taken to be "null, or every character white space" under `char.IsWhiteSpace`.
- Null option strings, a null user id, a null claim type and null entries inside a claim list are not modelled. Strings in those places are always present.
- `ClaimsIdentity.RemoveClaim` can throw for a claim the identity does not own. The claim removed always comes from the identity's own list, so that path is not modelled.
- TypeExtensions.IsAssignableFromGenericType: `Type.IsAssignableFrom` is reduced to name equality along the base chain and the implemented interfaces. Variance, generic parameters, arrays and value types are not modelled.
- DateModifiedTriggers.GetTriggersSql: requires a non-empty type name for every type that has no override and does not fall under the identity branch. Only there does the source read the last character of the name, and `Substring(name.Length - 1)` would throw on an empty one. .NET type names are never empty, so that error path is not modelled.
- RouteMatch.ParseEntry: its own contract covers only bracket-free entries. The bracketed cases are stated in ParseEntryErrors and ParseEntryParts.
- Requests.QueryValue: several values are joined with ','. The contract states the null and single-value cases only.
- SecurityDriver.UpdateThenHasClaim: states that the claim is present, not which value `GetClaimValue` then returns. An earlier claim whose type matches ignoring case, in the first or another identity, can shadow the new one.
- There is one difference between the code and a plain reading. `HasClaim` and `GetClaimValue` go through `FindFirst`, which compares claim types ignoring case. `AddOrUpdateClaimAsync` compares claim types exactly. The model follows the code in both places.
- The "AspNetUser" branch of the trigger generator tests `IAuditDates`, not the entity type, against `IdentityUser<>`. It is modelled as written, as a single decision shared by all types.
