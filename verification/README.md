# maven-repository-extension: a Dafny model of the repository ordering core

The extension plugs into Maven's resolver. Before the resolver fetches an
artifact, its descriptor, its versions or its dependencies, the extension
rewrites the list of remote repositories the request carries. Two policies
exist.

- **OrderedRepositorySystem** is rule driven. Rules come from a bundled
  properties file, optionally merged with an additional one. The first rule,
  in ascending index order, whose regular expression matches
  `group:artifact:version` decides the result:
  - first the candidates whose trimmed id equals each of the rule's ids, in the
    order the rule declares them;
  - then, when the rule includes the others, every remaining candidate.

  Without a matching rule, the default id list and the default include flag
  decide instead.
- **RedHatRepositorySystem** is a fixed heuristic. A product build (a version
  containing `redhat`) keeps only the repositories whose url contains `redhat`.
  The kept list is then stably sorted: `redhat` repositories last, and by
  `String.compareTo` on the ids within each class.

## How the model is organised

| file | module | what it holds |
|---|---|---|
| `wrappers.dfy` | `Wrappers` | `Option`, `Result`, and map lookup as an option. |
| `java_strings.dfy` | `JavaStrings` | The JDK behaviour the code relies on: `String.trim`, `split` with a one-character separator (trailing empty strings dropped), `contains`, `startsWith`/`endsWith`, `compareTo`, `Integer.parseInt`/`toString`. |
| `int_sets.dfy` | `IntSets` | Ascending lists of distinct ints; the rule list is sorted into this shape. |
| `repositories.dfy` | `Repositories` | `Repo(id, url)` compared by value, `Artifact`, the GAV string, and no-duplicates facts. |
| `configuration.dfy` | `OrderedRepositoryConfiguration` | `mergeProperties`, the key parsing of `loadRules`, the rule sort, the include pass, and the getters as the fields of `Config`. |
| `ordered_engine.dfy` | `OrderedRepositorySystem` | `getOrderedRemoteRepositories`. |
| `redhat_engine.dfy` | `RedHatRepositorySystem` | `getRemoteRepositories`: the filter, the comparator, and a stable sort by it. |
| `requests.dfy` | `RepositoryRequests` | How both systems replace a request's repositories: the single-artifact overrides, `resolveArtifacts`, and the dependency loop of `resolveDependencies`/`collectDependencies`. |

Modelling choices:

- **Matcher.** `String.matches` is a parameter `matches: (gav, pattern) ->
  Option<bool>`. `None` stands for the PatternSyntaxException of a pattern
  that does not compile.
- **Key order.** The iteration order of the merged `Properties` table is a
  parameter `keys` that lists every key once. `LoadOrderFree` shows that
  whether parsing succeeds never depends on that order. When no two keys write
  the same field, the configuration does not depend on it either.
- **Errors.** These exceptions of the code are error values, not
  preconditions:
  - `regex.` keys without an int second segment give `MissingIndex` or `BadIndex`;
  - a scanned rule without a pattern gives `PatternMissing`;
  - a scanned pattern that does not compile gives `InvalidPattern`;
  - a chosen rule without ids gives `ReposMissing`;
  - a missing default list gives `DefaultReposMissing`.

  The other nulls the code could meet are listed under "Left out".
- **Sources.** Each property source arrives already loaded as a `Source`:
  missing, loaded, or unreadable.

Points where the behaviour is easy to misread, each stated as the code
behaves:

- **Merge direction.** On a key both sources define, the additional
  source's value overwrites the default one
  (`OrderedRepositoryConfiguration.java:214-221`). `Merge` and
  `MergeIsOverride` state this.
- **Duplicate test.** The append loops skip a repository when
  `repos.contains(repo)` holds (`OrderedRepositorySystem.java:144` and
  `:153`), which compares whole repositories, not ids. `Repo` equality is
  structural.
- **Failed load.** On an I/O failure `loadRules` returns before any field is
  set (`OrderedRepositoryConfiguration.java:96-107`), so the default list
  stays null. Every artifact that no rule matches then fails on
  `config.getDefaultRepos()`. `Load` gives `Unconfigured`, and
  `Order`/`OrderWithoutMatch` give `DefaultReposMissing`.
- **Split pieces.** Ids from `split(",")` keep their blanks. Blanks are
  trimmed only when ids are compared, so `"a, b"` names the ids `"a"` and
  `" b"`, and the second still matches a repository `b`.

## Model

| member | source | states |
|---|---|---|
| OrderedRepositoryConfiguration.Merge | src/main/java/org/jboss/maven/extensions/repository/OrderedRepositoryConfiguration.java:203-222 | If one source is absent, the other comes back unchanged, and two absent sources give nothing. Otherwise the keys are the union of both sources' keys. A key of the additional source takes the additional value, and a key only in the defaults keeps its default value. |
| OrderedRepositoryConfiguration.MergeIsOverride | src/main/java/org/jboss/maven/extensions/repository/OrderedRepositoryConfiguration.java:214-221 | The two-pass merge equals a plain override of the defaults by the additional source. |
| OrderedRepositoryConfiguration.Effective | src/main/java/org/jboss/maven/extensions/repository/OrderedRepositoryConfiguration.java:93-109 | An I/O failure in either load leaves nothing to parse. So does the absence of both sources. A single loaded source is parsed as it is. With both loaded, the defaults overridden by the additional source are parsed. |
| OrderedRepositoryConfiguration.Load | src/main/java/org/jboss/maven/extensions/repository/OrderedRepositoryConfiguration.java:93-150 | After an I/O failure, or with no source, the configuration has no rules and no default list. Otherwise the result is the parse of the effective properties, which succeeds exactly when no key is a malformed `regex.` key. |
| OrderedRepositoryConfiguration.LoadParsesMerge | src/main/java/org/jboss/maven/extensions/repository/OrderedRepositoryConfiguration.java:93-109 | With both sources loaded, the configuration is the parse of the defaults overridden by the additional source; with one, the parse of that one. |
| OrderedRepositoryConfiguration.Collect | src/main/java/org/jboss/maven/extensions/repository/OrderedRepositoryConfiguration.java:110-135 | The entry loop succeeds iff no entry is malformed. Otherwise it fails with the first malformed entry's error. On success, every slot holds the value of the last entry in iteration order that writes it. |
| OrderedRepositoryConfiguration.Latest | src/main/java/org/jboss/maven/extensions/repository/OrderedRepositoryConfiguration.java:114-133 | A slot is set iff some entry writes it. Its value then comes from a writer that no later entry overwrites. |
| OrderedRepositoryConfiguration.RuleIndexList | src/main/java/org/jboss/maven/extensions/repository/OrderedRepositoryConfiguration.java:120-126 | A rule exists for index n exactly when some entry writes a field of rule n. |
| OrderedRepositoryConfiguration.Build | src/main/java/org/jboss/maven/extensions/repository/OrderedRepositoryConfiguration.java:108-150 | Success iff no key is malformed; otherwise the first malformed key's error. The rules are in strictly ascending index order, one per index the keys mention. Each rule field holds its last written value. A rule includes the others iff a trimmed `repos.included` token is `regex.<index>`. The default list is the comma split of the value in the default-list slot, the include tokens that of the included slot, and the default flag a substring test for `regex.default` on that value. Which keys write those slots is stated by `RoleClassifies`, `DefaultListFromItsKey` and `IncludedFromItsKey`. |
| OrderedRepositoryConfiguration.RoleClassifies | src/main/java/org/jboss/maven/extensions/repository/OrderedRepositoryConfiguration.java:112-119 | A key is classified by its trimmed text. It writes the default list iff it trims to `regex.default.repos`, and the included list iff it trims to `repos.included`. Other keys under `regex.` are read by index, and every other key is ignored. |
| OrderedRepositoryConfiguration.SpecialKeyRoles | src/main/java/org/jboss/maven/extensions/repository/OrderedRepositoryConfiguration.java:114-120 | `regex.default.repos` writes the default list and `repos.included` the included list. The bare key `regex.` has no second segment, so it is malformed (the array-index exception). |
| OrderedRepositoryConfiguration.DefaultListFromItsKey | src/main/java/org/jboss/maven/extensions/repository/OrderedRepositoryConfiguration.java:110-116 | After a successful parse, the default list is the comma split of the trimmed value of the last key in iteration order that trims to `regex.default.repos`. It is null when no key does. |
| OrderedRepositoryConfiguration.IncludedFromItsKey | src/main/java/org/jboss/maven/extensions/repository/OrderedRepositoryConfiguration.java:110-118 | After a successful parse, the include tokens are the comma split of the last `repos.included` value, and the default flag says whether that value contains `regex.default`. Without such a key there are no tokens and the flag is off. |
| OrderedRepositoryConfiguration.RoleOfIndexedKey | src/main/java/org/jboss/maven/extensions/repository/OrderedRepositoryConfiguration.java:114-119 | A trimmed key under `regex.` other than `regex.default.repos` is read as a rule key. |
| OrderedRepositoryConfiguration.RoleOfRuleKey | src/main/java/org/jboss/maven/extensions/repository/OrderedRepositoryConfiguration.java:112-133 | For `regex.<seg>` or `regex.<seg>.<suffix>`, the key writes rule `parseInt(seg)`, in the field its ending picks. If `seg` is not an int, the key is malformed. |
| OrderedRepositoryConfiguration.RuleKeysAddressTheirRule | src/main/java/org/jboss/maven/extensions/repository/OrderedRepositoryConfiguration.java:120-133 | Every 32-bit index written in decimal addresses its own rule, whatever the suffix. |
| OrderedRepositoryConfiguration.DigitRuleKey | src/main/java/org/jboss/maven/extensions/repository/OrderedRepositoryConfiguration.java:120 | A segment of decimal digits addresses the rule `parseInt` gives it. If the value overflows 32 bits, the key is malformed. |
| OrderedRepositoryConfiguration.LeadingZeroSharesRule | src/main/java/org/jboss/maven/extensions/repository/OrderedRepositoryConfiguration.java:120-126 | `regex.01…` and `regex.1…` address the same rule. |
| OrderedRepositoryConfiguration.DescriptionKeyRoutes | src/main/java/org/jboss/maven/extensions/repository/OrderedRepositoryConfiguration.java:119-130 | For every 32-bit n, `regex.<n>.description` writes rule n's description. |
| OrderedRepositoryConfiguration.ReposKeyRoutes | src/main/java/org/jboss/maven/extensions/repository/OrderedRepositoryConfiguration.java:119-128 | For every 32-bit n, `regex.<n>.repos` writes rule n's repository id list. |
| OrderedRepositoryConfiguration.PatternKeyRoutes | src/main/java/org/jboss/maven/extensions/repository/OrderedRepositoryConfiguration.java:119-133 | For every 32-bit n, the bare key `regex.<n>` writes rule n's pattern. |
| OrderedRepositoryConfiguration.PatternKeyExamples | src/main/java/org/jboss/maven/extensions/repository/OrderedRepositoryConfiguration.java:131-133 | The keys `regex.3` and `regex.1` set the patterns of rules 3 and 1; `PatternKeyRoutes` states the general case. |
| OrderedRepositoryConfiguration.SingleDigitPatternKey | src/main/java/org/jboss/maven/extensions/repository/OrderedRepositoryConfiguration.java:119-133 | A bare key `regex.<d>` sets rule d's pattern. |
| OrderedRepositoryConfiguration.SingleDigitReposKey | src/main/java/org/jboss/maven/extensions/repository/OrderedRepositoryConfiguration.java:119-128 | `regex.<d>.repos` sets rule d's id list. |
| OrderedRepositoryConfiguration.ReposKeyExample | src/main/java/org/jboss/maven/extensions/repository/OrderedRepositoryConfiguration.java:127-128 | `regex.2.repos` sets rule 2's id list. |
| OrderedRepositoryConfiguration.RuleOrderExample | src/test/java/org/jboss/maven/extensions/repository/OrderedRepositoryConfigurationTest.java:68-93 | Rules met in the order 3, 1, 2 come out as rules 1, 2, 3. |
| OrderedRepositoryConfiguration.IdListOfJoin | src/main/java/org/jboss/maven/extensions/repository/OrderedRepositoryConfiguration.java:114-115 | A comma-joined id list splits back into the same ids in declared order, blanks kept. |
| OrderedRepositoryConfiguration.DefaultListExample | src/test/java/org/jboss/maven/extensions/repository/OrderedRepositoryConfigurationTest.java:63-66 | `jboss-public-repository-group,central` gives those two ids, in that order. |
| OrderedRepositoryConfiguration.PaddedTokenNamesRule | src/main/java/org/jboss/maven/extensions/repository/OrderedRepositoryConfiguration.java:143-149 | An included token names rule n even with blanks around `regex.<n>`. |
| OrderedRepositoryConfiguration.LoadOrderFree | src/main/java/org/jboss/maven/extensions/repository/OrderedRepositoryConfiguration.java:110-135 | Any two enumerations of the merged keys agree on whether loading succeeds. When no two keys write the same field, they give the same configuration. |
| OrderedRepositoryConfiguration.ParseOrderFree | src/main/java/org/jboss/maven/extensions/repository/OrderedRepositoryConfiguration.java:110-149 | The same independence, for the parse of one property table. |
| OrderedRepositoryConfiguration.MalformedOrderFree | src/main/java/org/jboss/maven/extensions/repository/OrderedRepositoryConfiguration.java:111-120 | Whether some key is malformed does not depend on the enumeration. |
| OrderedRepositoryConfiguration.BuildOrderFree | src/main/java/org/jboss/maven/extensions/repository/OrderedRepositoryConfiguration.java:110-149 | Without competing writers, two error-free enumerations build equal configurations. |
| OrderedRepositoryConfiguration.Wrap32 | src/main/java/org/jboss/maven/extensions/repository/OrderedRepositoryConfiguration.java:140 | Java int arithmetic: the result is in 32-bit range, congruent to the exact value modulo 2^32, and equal to it when it fits. |
| OrderedRepositoryConfiguration.IndexCompareAsWritten | src/main/java/org/jboss/maven/extensions/repository/OrderedRepositoryConfiguration.java:137-142 | When the difference fits in 32 bits, the comparator's sign is the order of the indices. |
| OrderedRepositoryConfiguration.IndexCompareNotTransitive | src/main/java/org/jboss/maven/extensions/repository/OrderedRepositoryConfiguration.java:140 | The comparator puts -2 before 0 and 0 before 2147483647, yet 2147483647 before -2. |
| OrderedRepositoryConfiguration.NoArrangementSortedAsWritten | src/main/java/org/jboss/maven/extensions/repository/OrderedRepositoryConfiguration.java:136-142 | No order of the rules -2, 0 and 2147483647 is sorted by the comparator as written, so `Collections.sort` cannot meet its own contract on them. |
| IntSets.SortUnique | src/main/java/org/jboss/maven/extensions/repository/OrderedRepositoryConfiguration.java:136-142 | The rule indices come out strictly ascending and hold exactly the indices given. |
| IntSets.IncreasingUnique | src/main/java/org/jboss/maven/extensions/repository/OrderedRepositoryConfiguration.java:136-142 | Two ascending index lists with the same members are equal, so the sorted rule list does not depend on the order of the rule table. |
| JavaStrings.TrimShape | src/main/java/org/jboss/maven/extensions/repository/OrderedRepositoryConfiguration.java:112-113 | `trim` keeps a contiguous slice, drops only blanks, and leaves no blank at either end. |
| JavaStrings.TrimOfPadded | src/main/java/org/jboss/maven/extensions/repository/OrderedRepositorySystem.java:143 | Blanks around a string that starts and ends with non-blanks are exactly what `trim` removes. |
| JavaStrings.TrimIdempotent | src/main/java/org/jboss/maven/extensions/repository/OrderedRepositorySystem.java:143 | Trimming twice is trimming once. |
| JavaStrings.Split | src/main/java/org/jboss/maven/extensions/repository/OrderedRepositoryConfiguration.java:115 | Without a separator the result is the input alone. Otherwise it is the pieces between separators, up to the last non-empty one. |
| JavaStrings.PiecesOfJoin | src/main/java/org/jboss/maven/extensions/repository/OrderedRepositoryConfiguration.java:128 | Cutting a join of separator-free parts gives the parts back. |
| JavaStrings.SplitOfJoin | src/main/java/org/jboss/maven/extensions/repository/OrderedRepositoryConfiguration.java:115 | `split` inverts a join whose last part is non-empty. |
| JavaStrings.CompareTo | src/main/java/org/jboss/maven/extensions/repository/RedHatRepositorySystem.java:167 | `compareTo` is zero exactly for equal strings. |
| JavaStrings.CompareToFirstDifference | src/main/java/org/jboss/maven/extensions/repository/RedHatRepositorySystem.java:167 | After a common prefix, `compareTo` is the difference of the first differing characters, whatever follows. |
| JavaStrings.CompareToProperPrefix | src/main/java/org/jboss/maven/extensions/repository/RedHatRepositorySystem.java:167 | A proper prefix compares below its extension, by the difference of the lengths. |
| JavaStrings.CompareToAntisymmetric | src/main/java/org/jboss/maven/extensions/repository/RedHatRepositorySystem.java:167 | Swapping the operands negates `compareTo`. |
| JavaStrings.CompareToTransitive | src/main/java/org/jboss/maven/extensions/repository/RedHatRepositorySystem.java:167 | The order `compareTo` gives is transitive. |
| JavaStrings.ParseInt | src/main/java/org/jboss/maven/extensions/repository/OrderedRepositoryConfiguration.java:120 | A parsed index is a 32-bit int, and the segment starts with a sign or a digit. |
| JavaStrings.ParseIntOfDigits | src/main/java/org/jboss/maven/extensions/repository/OrderedRepositoryConfiguration.java:120 | An unsigned or `+`-signed digit string parses to its decimal value when that fits in 32 bits, and is rejected otherwise. |
| JavaStrings.ParseIntOfNegativeDigits | src/main/java/org/jboss/maven/extensions/repository/OrderedRepositoryConfiguration.java:120 | A `-`-signed digit string parses to its negated value when that is at least -2147483648, and is rejected otherwise. |
| JavaStrings.ParseIntRejects | src/main/java/org/jboss/maven/extensions/repository/OrderedRepositoryConfiguration.java:120 | The empty string, a lone sign, and any string with a character that is neither a digit nor a leading sign are rejected. |
| JavaStrings.ParseIntOfIntToString | src/main/java/org/jboss/maven/extensions/repository/OrderedRepositoryConfiguration.java:145 | `parseInt` reads back what `toString` writes for every 32-bit int. |
| JavaStrings.ParseIntLeadingZero | src/main/java/org/jboss/maven/extensions/repository/OrderedRepositoryConfiguration.java:120 | A leading zero does not change the parsed value. |
| OrderedRepositorySystem.AddNew | src/main/java/org/jboss/maven/extensions/repository/OrderedRepositorySystem.java:142-147 | One pass over the candidates extends the list, which keeps it as a prefix. It adds exactly the kept candidates not yet present, each once, in candidate order. |
| OrderedRepositorySystem.Rank | src/main/java/org/jboss/maven/extensions/repository/OrderedRepositorySystem.java:141-143 | The first declared id whose trim equals the repository's trimmed id. |
| OrderedRepositorySystem.AddNamed | src/main/java/org/jboss/maven/extensions/repository/OrderedRepositorySystem.java:141-149 | The id passes give, without duplicates, exactly the candidates some id names. A repository named by an earlier id comes first; among those first named by the same id, candidate order is kept. |
| OrderedRepositorySystem.Arrange | src/main/java/org/jboss/maven/extensions/repository/OrderedRepositorySystem.java:141-157 | No duplicates. The members are the named candidates, or every candidate when others are included. Named repositories come first, in rank order. The others follow in candidate order. |
| OrderedRepositorySystem.FullLengthKeepsAll | src/main/java/org/jboss/maven/extensions/repository/OrderedRepositorySystem.java:150-157 | A result as long as the candidate list holds every candidate. |
| OrderedRepositorySystem.ArrangeEmpty | src/main/java/org/jboss/maven/extensions/repository/OrderedRepositorySystem.java:180-183 | The result is empty exactly when no candidate is named and the others are not included. It is then an empty list, not the candidates. |
| OrderedRepositorySystem.FirstMatch | src/main/java/org/jboss/maven/extensions/repository/OrderedRepositorySystem.java:137-160 | The scan stops at the first rule whose pattern matches the GAV, or finds none. If it first reaches a rule without a pattern, or with a pattern that does not compile, it fails on that rule. |
| OrderedRepositorySystem.Order | src/main/java/org/jboss/maven/extensions/repository/OrderedRepositorySystem.java:133-192 | A successful ordering holds only candidates, each at most once. |
| OrderedRepositorySystem.OrderFollowsFirstMatch | src/main/java/org/jboss/maven/extensions/repository/OrderedRepositorySystem.java:137-159 | The first matching rule's ids and flag alone decide the list. If that rule has no ids, the ordering fails. |
| OrderedRepositorySystem.OrderWithoutMatch | src/main/java/org/jboss/maven/extensions/repository/OrderedRepositorySystem.java:161-179 | With no matching rule, the default ids and the default flag decide the list. Without a default list, the ordering fails. |
| OrderedRepositorySystem.OrderFailsAtBrokenRule | src/main/java/org/jboss/maven/extensions/repository/OrderedRepositorySystem.java:137-138 | A rule without a pattern, or with one that does not compile, met before any match aborts the ordering with that rule's error. |
| OrderedRepositorySystem.LaterRulesIgnored | src/main/java/org/jboss/maven/extensions/repository/OrderedRepositorySystem.java:158 | Replacing the rules after the first match changes nothing. |
| RedHatRepositorySystem.Eligible | src/main/java/org/jboss/maven/extensions/repository/RedHatRepositorySystem.java:133-143 | An ordinary artifact keeps every candidate. A product build keeps exactly the `redhat` ones, with their multiplicities, in candidate order. |
| RedHatRepositorySystem.CompareZero | src/main/java/org/jboss/maven/extensions/repository/RedHatRepositorySystem.java:161-167 | The comparator ties exactly repositories of the same class and the same id. |
| RedHatRepositorySystem.CompareAntisymmetric | src/main/java/org/jboss/maven/extensions/repository/RedHatRepositorySystem.java:161-167 | Swapping the operands flips the comparator's sign. |
| RedHatRepositorySystem.CompareTransitive | src/main/java/org/jboss/maven/extensions/repository/RedHatRepositorySystem.java:161-167 | The comparator is transitive, so the sort is well defined. |
| RedHatRepositorySystem.Insert | src/main/java/org/jboss/maven/extensions/repository/RedHatRepositorySystem.java:149-169 | Inserting into a sorted list keeps it sorted and adds exactly one element. The new element goes behind the elements it ties with. |
| RedHatRepositorySystem.SortRepos | src/main/java/org/jboss/maven/extensions/repository/RedHatRepositorySystem.java:149-169 | The output is sorted by the comparator and is a permutation of the input. Every group of ties keeps its input order. |
| RedHatRepositorySystem.StableSortUnique | src/main/java/org/jboss/maven/extensions/repository/RedHatRepositorySystem.java:149 | Any two sorted lists with the same tie groups are equal. Every stable sort, `Collections.sort` included, therefore gives `SortRepos`' list. |
| RedHatRepositorySystem.TiesOfEligible | src/main/java/org/jboss/maven/extensions/repository/RedHatRepositorySystem.java:134-143 | The filter keeps each tie group of a kept class whole and in order. |
| RedHatRepositorySystem.Order | src/main/java/org/jboss/maven/extensions/repository/RedHatRepositorySystem.java:132-177 | An ordinary artifact gets a permutation of the candidates. A product build gets a permutation of exactly its `redhat` candidates. No `redhat` repository comes before a non-`redhat` one, and ids do not decrease within a class. Equal repositories keep their candidate order. The result is empty iff nothing is eligible. |
| RedHatRepositorySystem.RedHatLast | src/main/java/org/jboss/maven/extensions/repository/RedHatRepositorySystem.java:161-166 | In a sorted list no `redhat` repository precedes a non-`redhat` one. |
| RedHatRepositorySystem.EmptyWhenNoneEligible | src/main/java/org/jboss/maven/extensions/repository/RedHatRepositorySystem.java:144-147 | The list is empty exactly when a product build has no `redhat` candidate, or there are no candidates. |
| RepositoryRequests.ForRequest | src/main/java/org/jboss/maven/extensions/repository/OrderedRepositorySystem.java:239-247 | The request keeps its artifact and carries the ordering's list. A failing ordering fails the call. |
| RepositoryRequests.ForRequests | src/main/java/org/jboss/maven/extensions/repository/OrderedRepositorySystem.java:249-259 | Each request gets the list for its own artifact and its own repositories. The first failing ordering aborts the call. |
| RepositoryRequests.ForDependencies | src/main/java/org/jboss/maven/extensions/repository/OrderedRepositorySystem.java:195-210 | Without dependencies the request keeps its list. Otherwise each dependency is ordered against the original list. The loop stops at the first full-length result, the first failure, or the last dependency, and the request carries that result. |
| RepositoryRequests.ForDependenciesTakesFirstFull | src/main/java/org/jboss/maven/extensions/repository/OrderedRepositorySystem.java:204-206 | The first full-length result ends the loop, whatever the later dependencies give. |
| RepositoryRequests.ForDependenciesTakesLast | src/main/java/org/jboss/maven/extensions/repository/OrderedRepositorySystem.java:201-207 | If no result is full, the last dependency's list is kept. |
| RepositoryRequests.OrderedDependencies | src/main/java/org/jboss/maven/extensions/repository/OrderedRepositorySystem.java:226-234 | After the loop the collect request carries duplicate-free original repositories. A list as long as the original holds all of them, with no assumption about the original list. |
| RepositoryRequests.RedHatDependencies | src/main/java/org/jboss/maven/extensions/repository/RedHatRepositorySystem.java:184-191 | Once some dependency is not a product build, the loop ends with a reordering of the whole original list. |
| RepositoryRequests.OrdinaryIsFull | src/main/java/org/jboss/maven/extensions/repository/RedHatRepositorySystem.java:140-142 | An ordinary artifact's list is as long as the candidate list. |
| RepositoryRequests.FullHeuristicListIsPermutation | src/main/java/org/jboss/maven/extensions/repository/RedHatRepositorySystem.java:188-190 | A heuristic list as long as the original is a permutation of it. |

## Left out

- **Property sources.** Reading them from the classpath, a local file or a URL
  (`loadDefaultConfiguration`, `loadAdditionalConfig`) is I/O. Each source
  arrives as `Missing`, `Loaded(map)` or `Unreadable`.
- **`.properties` syntax.** Escapes, comments and continuation lines are not
  modelled; the model starts from the string-to-string map.
- **System properties and logging.** The switches are global state:
  - the ordered system reads `ordered.repository.extension.enabled`,
    `ordered.repository.extension.debug` and
    `ordered.repository.extension.configure.url`;
  - the heuristic system reads `repo.extension.enabled` and `debug`.

  With an extension disabled, nothing is reordered. The `println` logging is
  not modelled.
- **Regular expressions.** Java's regular-expression semantics are not
  modelled; the matcher is a parameter. Which patterns fail to compile is
  up to that parameter too.
- **Delegation to the base resolver.** The `super.*` calls, constructors and
  setters are not modelled. The model states only which list each request
  carries when it is passed on.
- **Other nulls.** Null artifacts, null repository ids, urls or versions, and
  null entries in lists are not modelled, apart from the error cases listed
  above. The heuristic's `artifact != null` test is modelled as an `Option`.
- **Repository fields.** `RemoteRepository` fields other than id and url are
  not modelled. Equality of `Repo` stands for `RemoteRepository.equals`.
- **Map iteration order.** `HashMap`/`Properties` iteration order is the `keys`
  parameter. Which of two writers of one field wins depends on it, and
  `LoadOrderFree` is stated for single writers.
- **Mutation before a failure.** In `resolveArtifacts`, requests processed
  before the failing one have already been mutated in the code. In the model
  the whole call fails.
- JavaStrings.ParseInt: non-ASCII Unicode digits, which `Integer.parseInt`
  also accepts, are not modelled; only `0`-`9` are digits.
- JavaStrings.CompareTo: strings are sequences of Unicode scalar values, not
  UTF-16 code units, so supplementary characters compare by code point.
- RedHatRepositorySystem.SortRepos: `Collections.sort` (TimSort) is modelled by
  an insertion sort. `StableSortUnique` shows that every stable sort gives
  the same list.
- OrderedRepositoryConfiguration.IndexCompareAsWritten: what TimSort does with
  this non-transitive comparator is not modelled: a mis-ordered list, or an
  `IllegalArgumentException`. The rule list is built with the evidently
  intended ascending order.
- mvntime.py: a log-timing script outside the ordering core.

## Findings

| source | as written | input that shows it | evidently intended | confidence | as-written member | corrected member |
|---|---|---|---|---|---|---|
| src/main/java/org/jboss/maven/extensions/repository/OrderedRepositoryConfiguration.java:140 | The rules are sorted with `r1.index - r2.index`, and that int subtraction overflows when the indices are far apart. | Rules `regex.-2`, `regex.0` and `regex.2147483647`: the comparator puts -2 before 0 and 0 before 2147483647, but 2147483647 before -2. The relation is not transitive, so the sort's result is unspecified. | Rules sorted by ascending index, as `Integer.compare` would give. | medium (not executed) | OrderedRepositoryConfiguration.NoArrangementSortedAsWritten | OrderedRepositoryConfiguration.Build |
