/** OrderedRepositoryConfiguration: the merge of the bundled and the additional
    property sources, and the parse of the merged properties into ordered rules,
    a default repository list and the include-others flags. Reading the sources
    (classpath, file, URL) is outside the model: each arrives as a `Source`. */
module OrderedRepositoryConfiguration {
  import opened Wrappers
  import opened JavaStrings
  import opened IntSets

  type Props = map<string, string>

  /** The outcome of loading one property source: nothing there, a loaded
      property set, or an I/O failure. */
  datatype Source = Missing | Loaded(props: Props) | Unreadable

  /** One ordering rule; a field the properties never set stays `None` (null). */
  datatype Rule = Rule(
    index: int,
    pattern: Option<string>,
    description: Option<string>,
    repos: Option<seq<string>>,
    includeOthers: bool)

  /** What the getters expose: the rules in ascending index order, the default
      repository ids, the raw `repos.included` tokens and the default flag. */
  datatype Config = Config(
    rules: seq<Rule>,
    defaultRepos: Option<seq<string>>,
    includeTokens: seq<string>,
    includeDefault: bool)

  /** The state left when no properties are parsed: no rules, no default list. */
  const Unconfigured := Config([], None, [], false)

  const DefaultReposKey := "regex.default.repos"
  const IncludedKey := "repos.included"
  const RegexPrefix := "regex."
  const DefaultToken := "regex.default"

  // ---------------------------------------------------------------------------
  // Merge (mergeProperties)
  // ---------------------------------------------------------------------------

  /** mergeProperties: either source alone is returned as is; when both are
      present every key of either is kept and the additional source's value wins. */
  function Merge(defaults: Option<Props>, extra: Option<Props>): (r: Option<Props>)
    ensures defaults.None? ==> r == extra
    ensures extra.None? ==> r == defaults
    ensures defaults.Some? && extra.Some? ==>
      && r.Some?
      && r.value.Keys == defaults.value.Keys + extra.value.Keys
      && (forall k :: k in extra.value ==> r.value[k] == extra.value[k])
      && (forall k :: k in defaults.value && k !in extra.value ==> r.value[k] == defaults.value[k])
  {
    match (defaults, extra)
    case (None, _) => extra
    case (_, None) => defaults
    case (Some(d), Some(e)) =>
      // first pass: every default key, overridden by the additional value
      var first := map k | k in d :: if k in e then e[k] else d[k];
      // second pass: additional keys not yet present
      Some(map k | k in first.Keys + e.Keys :: if k in first then first[k] else e[k])
  }

  /** The merge is Dafny's map override with the additional source on the right. */
  lemma MergeIsOverride(d: Props, e: Props)
    ensures Merge(Some(d), Some(e)) == Some(d + e)
  {
    var m := Merge(Some(d), Some(e)).value;
    assert m.Keys == (d + e).Keys;
    forall k | k in m ensures m[k] == (d + e)[k] {
    }
    assert m == d + e;
  }

  function AsOption(s: Source): Option<Props>
  {
    if s.Loaded? then Some(s.props) else None
  }

  /** The property set loadRules parses: nothing when either load failed (it
      returns early) or when neither source exists; otherwise the merge. */
  function Effective(defaults: Source, extra: Source): (r: Option<Props>)
    ensures defaults.Unreadable? || extra.Unreadable? ==> r.None?
    ensures defaults.Missing? && extra.Missing? ==> r.None?
    ensures defaults.Loaded? && extra.Missing? ==> r == Some(defaults.props)
    ensures defaults.Missing? && extra.Loaded? ==> r == Some(extra.props)
    ensures defaults.Loaded? && extra.Loaded? ==> r == Some(defaults.props + extra.props)
  {
    if defaults.Unreadable? || extra.Unreadable? then None
    else if defaults.Loaded? && extra.Loaded? then
      MergeIsOverride(defaults.props, extra.props);
      Merge(AsOption(defaults), AsOption(extra))
    else Merge(AsOption(defaults), AsOption(extra))
  }

  // ---------------------------------------------------------------------------
  // Keys
  // ---------------------------------------------------------------------------

  datatype Field = PatternField | DescriptionField | ReposField

  /** The place one property writes: the default list, the included list, or a
      field of the rule with the given index. */
  datatype Slot = DefaultReposSlot | IncludedSlot | RuleSlot(index: int, field: Field)

  /** A `regex.` key whose second dot-separated segment is missing
      (ArrayIndexOutOfBoundsException) or is not an int (NumberFormatException). */
  datatype ConfigError = MissingIndex(key: string) | BadIndex(key: string)

  datatype KeyRole = Writes(slot: Slot) | Ignored | Malformed(error: ConfigError)

  /** What one property key does once trimmed. */
  function Role(rawKey: string): KeyRole
  {
    var key := Trim(rawKey);
    if key == DefaultReposKey then Writes(DefaultReposSlot)
    else if key == IncludedKey then Writes(IncludedSlot)
    else if StartsWith(key, RegexPrefix) then IndexedRole(key)
    else Ignored
  }

  /** A trimmed `regex.` key other than the default list: the rule index is the
      int value of its second dot-separated segment, and the key's ending picks
      the field. */
  function IndexedRole(key: string): KeyRole
  {
    var segments := Split(key, '.');
    if |segments| < 2 then Malformed(MissingIndex(key))
    else
      match ParseInt(segments[1])
      case None => Malformed(BadIndex(key))
      case Some(n) => Writes(RuleSlot(n, FieldOf(key)))
  }

  function FieldOf(key: string): Field
  {
    if EndsWith(key, "repos") then ReposField
    else if EndsWith(key, "description") then DescriptionField
    else PatternField
  }

  /** The index of the rule a key writes to, if it writes to a rule. */
  function RuleIndexOf(rawKey: string): Option<int>
  {
    match Role(rawKey)
    case Writes(RuleSlot(n, _)) => Some(n)
    case _ => None
  }

  /** The key `regex.<digits>` or `regex.<digits>.<suffix>`. */
  function RuleKey(digits: string, suffix: string): string
  {
    RegexPrefix + digits + (if suffix == [] then [] else "." + suffix)
  }

  lemma {:induction false} RuleKeySegments(digits: string, suffix: string)
    requires '.' !in digits && '.' !in suffix && digits != []
    ensures Split(RuleKey(digits, suffix), '.') ==
      (if suffix == [] then ["regex", digits] else ["regex", digits, suffix])
  {
    var parts := if suffix == [] then ["regex", digits] else ["regex", digits, suffix];
    assert RegexPrefix == "regex" + ".";
    if suffix == [] {
      assert Join(parts, '.') == "regex" + "." + digits;
    } else {
      assert Join(parts[2..], '.') == suffix;
      assert Join(parts[1..], '.') == digits + "." + suffix;
      assert Join(parts, '.') == "regex" + "." + (digits + "." + suffix);
    }
    assert '.' !in "regex";
    assert RuleKey(digits, suffix) == Join(parts, '.');
    SplitOfJoin(parts, '.');
  }

  /** A trimmed key under `regex.` other than the default list is read as an
      indexed rule key. */
  lemma RoleOfIndexedKey(key: string)
    requires Trim(key) == key && StartsWith(key, RegexPrefix) && key != DefaultReposKey
    ensures Role(key) == IndexedRole(key)
  {
    assert key[2] == 'g' != IncludedKey[2];
  }

  /** Keys are classified by their trimmed text: `regex.default.repos` writes
      the default list and nothing else does, `repos.included` writes the
      included list and nothing else does, other keys under `regex.` are read
      by index, and every remaining key is ignored. */
  lemma RoleClassifies(rawKey: string)
    ensures Role(rawKey) == Role(Trim(rawKey))
    ensures Role(rawKey) == Writes(DefaultReposSlot) <==> Trim(rawKey) == DefaultReposKey
    ensures Role(rawKey) == Writes(IncludedSlot) <==> Trim(rawKey) == IncludedKey
    ensures Role(rawKey) == Ignored <==> Trim(rawKey) != IncludedKey && !StartsWith(Trim(rawKey), RegexPrefix)
    ensures StartsWith(Trim(rawKey), RegexPrefix) && Trim(rawKey) != DefaultReposKey ==>
      Role(rawKey) == IndexedRole(Trim(rawKey))
  {
    var key := Trim(rawKey);
    TrimIdempotent(rawKey);
    assert StartsWith(DefaultReposKey, RegexPrefix);
    if StartsWith(key, RegexPrefix) {
      assert key[2] == 'g' != IncludedKey[2];
    }
  }

  /** The two special keys write their own slots, and the bare prefix
      `regex.` has no second segment, so it is malformed. */
  lemma SpecialKeyRoles()
    ensures Role(DefaultReposKey) == Writes(DefaultReposSlot)
    ensures Role(IncludedKey) == Writes(IncludedSlot)
    ensures Role(RegexPrefix) == Malformed(MissingIndex(RegexPrefix))
  {
    TrimOfPadded([], DefaultReposKey, []);
    assert [] + DefaultReposKey + [] == DefaultReposKey;
    TrimOfPadded([], IncludedKey, []);
    assert [] + IncludedKey + [] == IncludedKey;
    TrimOfPadded([], RegexPrefix, []);
    assert [] + RegexPrefix + [] == RegexPrefix;
    var parts := ["regex", ""];
    assert Join(parts, '.') == RegexPrefix by {
      assert Join(parts[1..], '.') == "";
    }
    assert '.' !in "regex";
    PiecesOfJoin(parts, '.');
    assert DropTrailingEmpty(parts) == ["regex"] by {
      assert parts[..1] == ["regex"];
    }
    assert Split(RegexPrefix, '.') == ["regex"];
  }

  /** A trimmed rule key is read by its second segment: the index is that
      segment's int value, or the key is malformed when it is not an int. */
  lemma {:induction false} RoleOfRuleKey(digits: string, suffix: string)
    requires '.' !in digits && '.' !in suffix && digits != []
    requires !Blank(RuleKey(digits, suffix)[|RuleKey(digits, suffix)| - 1])
    requires RuleKey(digits, suffix) != DefaultReposKey
    ensures var key := RuleKey(digits, suffix);
      Role(key) == match ParseInt(digits)
        case None => Malformed(BadIndex(key))
        case Some(n) => Writes(RuleSlot(n, FieldOf(key)))
  {
    var key := RuleKey(digits, suffix);
    assert key == RegexPrefix + (digits + (if suffix == [] then [] else "." + suffix));
    assert Trim(key) == key by {
      assert !Blank(key[0]);
      TrimOfPadded([], key, []);
      assert [] + key + [] == key;
    }
    RoleOfIndexedKey(key);
    RuleKeySegments(digits, suffix);
  }

  /** A key whose index segment starts with anything but `d` is not the
      default-list key. */
  lemma IndexKeyIsNotDefaultKey(digits: string, suffix: string)
    requires digits != [] && digits[0] != 'd'
    ensures RuleKey(digits, suffix) != DefaultReposKey
  {
    assert RuleKey(digits, suffix)[6] == digits[0];
    assert DefaultReposKey[6] == 'd';
  }

  /** Every 32-bit index written out addresses its own rule, whatever the
      suffix (the suffix only picks the field). */
  lemma RuleKeysAddressTheirRule(n: int, suffix: string)
    requires MinInt <= n <= MaxInt
    requires '.' !in suffix
    requires suffix == [] || !Blank(suffix[|suffix| - 1])
    ensures Role(RuleKey(IntToString(n), suffix)) ==
      Writes(RuleSlot(n, FieldOf(RuleKey(IntToString(n), suffix))))
  {
    var ds := IntToString(n);
    var d := Digits(if n < 0 then -n else n);
    ParseIntOfIntToString(n);
    assert ds == (if n < 0 then "-" else []) + d;
    assert forall i :: 0 <= i < |d| ==> IsDigit(d[i]);
    assert '.' !in ds;
    assert ds[|ds| - 1] == d[|d| - 1];
    var key := RuleKey(ds, suffix);
    assert key[|key| - 1] == (if suffix == [] then ds[|ds| - 1] else suffix[|suffix| - 1]);
    assert ds[0] == (if n < 0 then '-' else d[0]);
    IndexKeyIsNotDefaultKey(ds, suffix);
    RoleOfRuleKey(ds, suffix);
  }

  lemma DigitRuleKey(ds: string, suffix: string)
    requires ds != [] && AllDigits(ds)
    requires '.' !in suffix
    requires suffix == [] || !Blank(suffix[|suffix| - 1])
    ensures var key := RuleKey(ds, suffix);
      Role(key) == match ParseInt(ds)
        case None => Malformed(BadIndex(key))
        case Some(n) => Writes(RuleSlot(n, FieldOf(key)))
  {
    var key := RuleKey(ds, suffix);
    assert key[|key| - 1] == (if suffix == [] then ds[|ds| - 1] else suffix[|suffix| - 1]);
    assert IsDigit(ds[0]) && IsDigit(ds[|ds| - 1]);
    assert '.' !in ds by {
      assert forall i :: 0 <= i < |ds| ==> IsDigit(ds[i]);
    }
    IndexKeyIsNotDefaultKey(ds, suffix);
    RoleOfRuleKey(ds, suffix);
  }

  /** Keys whose index segments parse to the same int, such as `regex.1` and
      `regex.01`, address the same rule. */
  lemma LeadingZeroSharesRule(digits: string, suffix: string)
    requires digits != [] && AllDigits(digits)
    requires '.' !in suffix
    requires suffix == [] || !Blank(suffix[|suffix| - 1])
    ensures RuleIndexOf(RuleKey("0" + digits, suffix)) == RuleIndexOf(RuleKey(digits, suffix))
  {
    var k1 := RuleKey("0" + digits, suffix);
    var k2 := RuleKey(digits, suffix);
    ParseIntLeadingZero(digits);
    DigitsValueLeadingZero(digits);
    DigitRuleKey(digits, suffix);
    DigitRuleKey("0" + digits, suffix);
    match ParseInt(digits)
    case None =>
      assert Role(k1) == Malformed(BadIndex(k1));
      assert Role(k2) == Malformed(BadIndex(k2));
    case Some(n) =>
      assert Role(k1) == Writes(RuleSlot(n, FieldOf(k1)));
      assert Role(k2) == Writes(RuleSlot(n, FieldOf(k2)));
  }

  // ---------------------------------------------------------------------------
  // Parsing the merged properties (loadRules, lines 109-150)
  // ---------------------------------------------------------------------------

  /** `keys` lists every key of `props` once: the iteration order of the
      property table, which Java leaves unspecified. */
  predicate Enumerates(keys: seq<string>, props: Props)
  {
    && (forall i, j :: 0 <= i < j < |keys| ==> keys[i] != keys[j])
    && (forall i :: 0 <= i < |keys| ==> keys[i] in props)
    && (forall k :: k in props ==> k in keys)
  }

  /** One property as the entry loop sees it: what its trimmed key does, and
      its trimmed value. */
  datatype Entry = Entry(role: KeyRole, value: string)

  /** The properties in iteration order, each read once. */
  function Entries(props: Props, keys: seq<string>): (es: seq<Entry>)
    requires forall i :: 0 <= i < |keys| ==> keys[i] in props
    ensures |es| == |keys|
    ensures forall i :: 0 <= i < |keys| ==> es[i] == Entry(Role(keys[i]), Trim(props[keys[i]]))
  {
    seq(|keys|, i requires 0 <= i < |keys| => Entry(Role(keys[i]), Trim(props[keys[i]])))
  }

  /** The reference reading of "last writer wins": the value of the last entry
      in iteration order that writes `slot`. */
  function Latest(es: seq<Entry>, slot: Slot): (r: Option<string>)
    ensures r.Some? <==> exists i :: 0 <= i < |es| && es[i].role == Writes(slot)
    ensures r.Some? ==> exists i :: (0 <= i < |es| && es[i].role == Writes(slot)
      && r.value == es[i].value
      && forall j :: i < j < |es| ==> es[j].role != Writes(slot))
  {
    if es == [] then None
    else
      var last := es[|es| - 1];
      var earlier := es[..|es| - 1];
      assert forall i :: 0 <= i < |earlier| ==> earlier[i] == es[i];
      if last.role == Writes(slot) then Some(last.value)
      else Latest(earlier, slot)
  }

  /** The entry loop: each entry, in iteration order, stores its value in the
      slot it writes, so a later writer overwrites an earlier one; the first
      malformed key aborts the whole parse with its exception. */
  function Collect(es: seq<Entry>): (r: Result<map<Slot, string>, ConfigError>)
    ensures r.Success? <==> forall i :: 0 <= i < |es| ==> !es[i].role.Malformed?
    ensures r.Failure? ==> exists i :: (0 <= i < |es| && es[i].role == Malformed(r.error)
      && forall j :: 0 <= j < i ==> !es[j].role.Malformed?)
    ensures r.Success? ==> forall slot :: Lookup(r.value, slot) == Latest(es, slot)
  {
    if es == [] then Success(map[])
    else
      var last := es[|es| - 1];
      var earlier := es[..|es| - 1];
      assert forall i :: 0 <= i < |earlier| ==> earlier[i] == es[i];
      match Collect(earlier)
      case Failure(e) => Failure(e)
      case Success(st) =>
        match last.role
        case Malformed(e) => Failure(e)
        case Ignored => Success(st)
        case Writes(slot) => Success(st[slot := last.value])
  }

  function SplitValue(v: Option<string>): Option<seq<string>>
  {
    if v.Some? then Some(Split(v.value, ',')) else None
  }

  /** The `repos.included` tokens: its value split at commas, or none without
      the key. */
  function IncludeTokens(included: Option<string>): seq<string>
  {
    if included.Some? then Split(included.value, ',') else []
  }

  /** A rule includes the other repositories when some trimmed included token is
      exactly `regex.<index>`. */
  predicate NamesRule(tokens: seq<string>, index: int)
  {
    exists i :: 0 <= i < |tokens| && Trim(tokens[i]) == RegexPrefix + IntToString(index)
  }

  function RuleFrom(st: map<Slot, string>, tokens: seq<string>, n: int): Rule
  {
    Rule(n,
      Lookup(st, RuleSlot(n, PatternField)),
      Lookup(st, RuleSlot(n, DescriptionField)),
      SplitValue(Lookup(st, RuleSlot(n, ReposField))),
      NamesRule(tokens, n))
  }

  /** An entry that writes some field of rule `n`. */
  predicate WritesRule(e: Entry, n: int)
  {
    e.role.Writes? && e.role.slot.RuleSlot? && e.role.slot.index == n
  }

  /** The rule indices the entries mention, in iteration order, repeats kept:
      the keys of the loop's rule table. */
  function RuleIndexList(es: seq<Entry>): (r: seq<int>)
    ensures forall n :: n in r <==> exists i :: 0 <= i < |es| && WritesRule(es[i], n)
  {
    if es == [] then []
    else
      var last := es[|es| - 1];
      var earlier := es[..|es| - 1];
      assert forall i :: 0 <= i < |earlier| ==> earlier[i] == es[i];
      RuleIndexList(earlier) +
        (if last.role.Writes? && last.role.slot.RuleSlot? then [last.role.slot.index] else [])
  }

  /** The indices of a rule list, in list order. */
  function IndexList(rules: seq<Rule>): (r: seq<int>)
    ensures |r| == |rules| && forall i :: 0 <= i < |rules| ==> r[i] == rules[i].index
  {
    seq(|rules|, i requires 0 <= i < |rules| => rules[i].index)
  }

  /** The configuration the collected slots describe, with one rule per index
      in `indices`. */
  function Assemble(st: map<Slot, string>, indices: seq<int>): Config
  {
    var tokens := IncludeTokens(Lookup(st, IncludedSlot));
    Config(
      seq(|indices|, i requires 0 <= i < |indices| => RuleFrom(st, tokens, indices[i])),
      SplitValue(Lookup(st, DefaultReposSlot)),
      tokens,
      IncludedSlot in st && Contains(st[IncludedSlot], DefaultToken))
  }

  /** The reference reading of one rule: every field is the last value written
      to it, and the rule includes the others when the last `repos.included`
      value names it. */
  function RuleOf(es: seq<Entry>, n: int): Rule
  {
    Rule(n,
      Latest(es, RuleSlot(n, PatternField)),
      Latest(es, RuleSlot(n, DescriptionField)),
      SplitValue(Latest(es, RuleSlot(n, ReposField))),
      NamesRule(IncludeTokens(Latest(es, IncludedSlot)), n))
  }

  /** The whole entry loop followed by the sort and the include pass: either the
      first malformed key's error, or one rule per mentioned index in ascending
      order, each field holding its last written value. */
  function Build(es: seq<Entry>): (r: Result<Config, ConfigError>)
    ensures r.Success? <==> forall i :: 0 <= i < |es| ==> !es[i].role.Malformed?
    ensures r.Failure? ==> exists i :: (0 <= i < |es| && es[i].role == Malformed(r.error)
      && forall j :: 0 <= j < i ==> !es[j].role.Malformed?)
    ensures r.Success? ==> forall i, j :: 0 <= i < j < |r.value.rules| ==>
      r.value.rules[i].index < r.value.rules[j].index
    ensures r.Success? ==> forall n :: n in IndexList(r.value.rules) <==> n in RuleIndexList(es)
    ensures r.Success? ==> forall i :: 0 <= i < |r.value.rules| ==>
      r.value.rules[i] == RuleOf(es, r.value.rules[i].index)
    ensures r.Success? ==> r.value.defaultRepos == SplitValue(Latest(es, DefaultReposSlot))
    ensures r.Success? ==> r.value.includeTokens == IncludeTokens(Latest(es, IncludedSlot))
    ensures r.Success? ==> (r.value.includeDefault <==>
      Latest(es, IncludedSlot).Some? && Contains(Latest(es, IncludedSlot).value, DefaultToken))
  {
    match Collect(es)
    case Failure(e) => Failure(e)
    case Success(st) =>
      var indices := SortUnique(RuleIndexList(es));
      var c := Assemble(st, indices);
      assert IndexList(c.rules) == indices;
      Success(c)
  }

  /** The value the configuration takes from a special key: that of the last
      key in iteration order that trims to it. */
  lemma {:induction false} LatestOfSpecialKey(props: Props, keys: seq<string>, i: int, slot: Slot, key: string)
    requires forall j :: 0 <= j < |keys| ==> keys[j] in props
    requires (slot == DefaultReposSlot && key == DefaultReposKey) || (slot == IncludedSlot && key == IncludedKey)
    requires 0 <= i < |keys| && Trim(keys[i]) == key
    requires forall j :: i < j < |keys| ==> Trim(keys[j]) != key
    ensures Latest(Entries(props, keys), slot) == Some(Trim(props[keys[i]]))
  {
    var es := Entries(props, keys);
    RoleClassifies(keys[i]);
    assert es[i].role == Writes(slot);
    var m :| 0 <= m < |es| && es[m].role == Writes(slot) && Latest(es, slot).value == es[m].value
      && forall j :: m < j < |es| ==> es[j].role != Writes(slot);
    RoleClassifies(keys[m]);
    assert m == i;
  }

  /** Without a key that trims to the special key, its slot stays unset. */
  lemma {:induction false} LatestWithoutSpecialKey(props: Props, keys: seq<string>, slot: Slot, key: string)
    requires forall j :: 0 <= j < |keys| ==> keys[j] in props
    requires (slot == DefaultReposSlot && key == DefaultReposKey) || (slot == IncludedSlot && key == IncludedKey)
    requires forall j :: 0 <= j < |keys| ==> Trim(keys[j]) != key
    ensures Latest(Entries(props, keys), slot) == None
  {
    var es := Entries(props, keys);
    forall j | 0 <= j < |es| ensures es[j].role != Writes(slot) {
      RoleClassifies(keys[j]);
    }
  }

  /** The default list is the comma split of the value of the last key, in
      iteration order, that trims to `regex.default.repos`, and is null when
      no key does. */
  lemma DefaultListFromItsKey(props: Props, keys: seq<string>, i: int)
    requires forall j :: 0 <= j < |keys| ==> keys[j] in props
    requires Build(Entries(props, keys)).Success?
    requires i == -1 || (0 <= i < |keys| && Trim(keys[i]) == DefaultReposKey)
    requires forall j :: i < j < |keys| && 0 <= j ==> Trim(keys[j]) != DefaultReposKey
    ensures i == -1 ==> Build(Entries(props, keys)).value.defaultRepos == None
    ensures i >= 0 ==> Build(Entries(props, keys)).value.defaultRepos == Some(Split(Trim(props[keys[i]]), ','))
  {
    if i == -1 {
      LatestWithoutSpecialKey(props, keys, DefaultReposSlot, DefaultReposKey);
    } else {
      LatestOfSpecialKey(props, keys, i, DefaultReposSlot, DefaultReposKey);
    }
  }

  /** The include tokens are the comma split of the value of the last key
      that trims to `repos.included`, and the default flag says whether that
      value contains `regex.default`; without such a key there are no tokens
      and the flag is off. */
  lemma IncludedFromItsKey(props: Props, keys: seq<string>, i: int)
    requires forall j :: 0 <= j < |keys| ==> keys[j] in props
    requires Build(Entries(props, keys)).Success?
    requires i == -1 || (0 <= i < |keys| && Trim(keys[i]) == IncludedKey)
    requires forall j :: i < j < |keys| && 0 <= j ==> Trim(keys[j]) != IncludedKey
    ensures i == -1 ==> Build(Entries(props, keys)).value.includeTokens == []
    ensures i == -1 ==> !Build(Entries(props, keys)).value.includeDefault
    ensures i >= 0 ==> Build(Entries(props, keys)).value.includeTokens == Split(Trim(props[keys[i]]), ',')
    ensures i >= 0 ==> (Build(Entries(props, keys)).value.includeDefault <==>
      Contains(Trim(props[keys[i]]), DefaultToken))
  {
    if i == -1 {
      LatestWithoutSpecialKey(props, keys, IncludedSlot, IncludedKey);
    } else {
      LatestOfSpecialKey(props, keys, i, IncludedSlot, IncludedKey);
    }
  }

  /** loadRules: no parse at all after an I/O failure or without any source,
      otherwise the parse of the merged properties enumerated in `keys` order. */
  function Load(defaults: Source, extra: Source, keys: seq<string>): (r: Result<Config, ConfigError>)
    requires Effective(defaults, extra).Some? ==> Enumerates(keys, Effective(defaults, extra).value)
    ensures defaults.Unreadable? || extra.Unreadable? ==> r == Success(Unconfigured)
    ensures defaults.Missing? && extra.Missing? ==> r == Success(Unconfigured)
    ensures Effective(defaults, extra).Some? ==>
      (r.Success? <==> forall i :: 0 <= i < |keys| ==> !Role(keys[i]).Malformed?)
    ensures Effective(defaults, extra).Some? ==> r == Build(Entries(Effective(defaults, extra).value, keys))
  {
    match Effective(defaults, extra)
    case None => Success(Unconfigured)
    case Some(props) => Build(Entries(props, keys))
  }

  /** With both sources loaded, the configuration is the parse of the defaults
      overridden by the additional source; with one, the parse of that one. */
  lemma LoadParsesMerge(defaults: Source, extra: Source, keys: seq<string>)
    requires defaults.Loaded? || extra.Loaded?
    requires !defaults.Unreadable? && !extra.Unreadable?
    requires Enumerates(keys, Effective(defaults, extra).value)
    ensures defaults.Loaded? && extra.Loaded? ==>
      Load(defaults, extra, keys) == Build(Entries(defaults.props + extra.props, keys))
    ensures defaults.Loaded? && extra.Missing? ==> Load(defaults, extra, keys) == Build(Entries(defaults.props, keys))
    ensures defaults.Missing? && extra.Loaded? ==> Load(defaults, extra, keys) == Build(Entries(extra.props, keys))
  {
  }

  /** A comma-separated list of ids without commas, the last one not empty,
      splits back into exactly those ids in declared order; blanks around an
      id are kept (they are trimmed only when ids are compared). */
  lemma {:induction false} IdListOfJoin(ids: seq<string>)
    requires ids != [] && ids[|ids| - 1] != []
    requires forall i :: 0 <= i < |ids| ==> ',' !in ids[i]
    ensures SplitValue(Some(Join(ids, ','))) == Some(ids)
  {
    SplitOfJoin(ids, ',');
  }

  /** The default list of the bundled test configuration. */
  lemma DefaultListExample()
    ensures SplitValue(Some("jboss-public-repository-group,central")) ==
      Some(["jboss-public-repository-group", "central"])
  {
    var ids := ["jboss-public-repository-group", "central"];
    assert Join(ids, ',') == "jboss-public-repository-group,central";
    IdListOfJoin(ids);
  }

  /** Rules come out in ascending index order whatever order their keys are
      met in: entries for rules 3, 1 and 2, met in that order, give the rules
      1, 2 and 3. */
  lemma RuleOrderExample(es: seq<Entry>)
    requires |es| == 3
    requires es[0].role == Writes(RuleSlot(3, PatternField))
    requires es[1].role == Writes(RuleSlot(1, PatternField))
    requires es[2].role == Writes(RuleSlot(2, ReposField))
    ensures Build(es).Success? && IndexList(Build(es).value.rules) == [1, 2, 3]
  {
    assert WritesRule(es[0], 3) && WritesRule(es[1], 1) && WritesRule(es[2], 2);
    var ix := IndexList(Build(es).value.rules);
    forall n ensures n in ix <==> n in [1, 2, 3] {
      assert n in ix <==> n in RuleIndexList(es);
    }
    IncreasingUnique(ix, [1, 2, 3]);
  }

  /** The keys of such entries: `regex.3` and `regex.1` set patterns. */
  lemma PatternKeyExamples()
    ensures Role("regex.3") == Writes(RuleSlot(3, PatternField))
    ensures Role("regex.1") == Writes(RuleSlot(1, PatternField))
  {
    assert "regex.3" == RegexPrefix + [DigitChar(3)];
    SingleDigitPatternKey(3);
    assert "regex.1" == RegexPrefix + [DigitChar(1)];
    SingleDigitPatternKey(1);
  }

  /** `regex.<n>.description` writes the description of rule n, for every
      32-bit n. */
  lemma DescriptionKeyRoutes(n: int)
    requires MinInt <= n <= MaxInt
    ensures Role(RuleKey(IntToString(n), "description")) == Writes(RuleSlot(n, DescriptionField))
  {
    RuleKeysAddressTheirRule(n, "description");
    var key := RuleKey(IntToString(n), "description");
    assert key[|key| - 11..] == "description";
    assert !EndsWith(key, "repos") by {
      assert key[|key| - 1] == 'n';
    }
  }

  /** `regex.<n>.repos` writes the repository list of rule n, for every
      32-bit n. */
  lemma ReposKeyRoutes(n: int)
    requires MinInt <= n <= MaxInt
    ensures Role(RuleKey(IntToString(n), "repos")) == Writes(RuleSlot(n, ReposField))
  {
    RuleKeysAddressTheirRule(n, "repos");
    var key := RuleKey(IntToString(n), "repos");
    assert key[|key| - 5..] == "repos";
  }

  /** A bare `regex.<n>` writes the pattern of rule n, for every 32-bit n. */
  lemma PatternKeyRoutes(n: int)
    requires MinInt <= n <= MaxInt
    ensures Role(RuleKey(IntToString(n), [])) == Writes(RuleSlot(n, PatternField))
  {
    RuleKeysAddressTheirRule(n, []);
    var key := RuleKey(IntToString(n), []);
    var d := Digits(if n < 0 then -n else n);
    assert key[|key| - 1] == d[|d| - 1];
    assert IsDigit(d[|d| - 1]);
    assert !EndsWith(key, "repos") && !EndsWith(key, "description");
  }

  /** A bare key `regex.<d>` with one digit sets the pattern of rule d. */
  lemma SingleDigitPatternKey(d: nat)
    requires d < 10
    ensures Role(RegexPrefix + [DigitChar(d)]) == Writes(RuleSlot(d, PatternField))
  {
    var key := RegexPrefix + [DigitChar(d)];
    assert IntToString(d) == [DigitChar(d)];
    RuleKeysAddressTheirRule(d, []);
    assert RuleKey(IntToString(d), []) == key;
    assert key[|key| - 1] == DigitChar(d);
    assert !EndsWith(key, "repos") && !EndsWith(key, "description");
  }

  /** `regex.2.repos` sets the repository list of rule 2. */
  lemma ReposKeyExample()
    ensures Role("regex.2.repos") == Writes(RuleSlot(2, ReposField))
  {
    assert "regex.2.repos" == RuleKey([DigitChar(2)], "repos") by {
      assert "." + "repos" == ".repos";
    }
    SingleDigitReposKey(2);
  }

  /** `regex.<d>.repos` with one digit sets the repository list of rule d. */
  lemma SingleDigitReposKey(d: nat)
    requires d < 10
    ensures Role(RuleKey([DigitChar(d)], "repos")) == Writes(RuleSlot(d, ReposField))
  {
    assert IntToString(d) == [DigitChar(d)];
    RuleKeysAddressTheirRule(d, "repos");
    var key := RuleKey([DigitChar(d)], "repos");
    assert key[|key| - 5..] == "repos";
  }

  /** An included token names its rule even with blanks around it, since the
      tokens are compared trimmed. */
  lemma {:induction false} PaddedTokenNamesRule(pre: string, post: string, n: int)
    requires AllBlank(pre) && AllBlank(post)
    ensures NamesRule([pre + RegexPrefix + IntToString(n) + post], n)
  {
    var name := RegexPrefix + IntToString(n);
    var d := Digits(if n < 0 then -n else n);
    assert name[|name| - 1] == d[|d| - 1];
    assert IsDigit(d[|d| - 1]);
    assert name[0] == 'r';
    TrimOfPadded(pre, name, post);
    var tokens := [pre + RegexPrefix + IntToString(n) + post];
    assert tokens[0] == pre + name + post;
    assert Trim(tokens[0]) == RegexPrefix + IntToString(n);
  }

  // ---------------------------------------------------------------------------
  // Independence from the iteration order
  // ---------------------------------------------------------------------------

  /** No two distinct keys write the same slot (for example, not both `regex.1`
      and `regex.01`, nor a key and a copy of it with surrounding blanks). */
  predicate SingleWriters(props: Props)
  {
    forall k1, k2 :: k1 in props && k2 in props && k1 != k2 && Role(k1).Writes? ==> Role(k1) != Role(k2)
  }

  /** The only entry writing a slot is the one the slot ends up holding. */
  lemma {:induction false} LatestOfSoleWriter(es: seq<Entry>, slot: Slot, i: int)
    requires 0 <= i < |es| && es[i].role == Writes(slot)
    requires forall j :: 0 <= j < |es| && es[j].role == Writes(slot) ==> j == i
    ensures Latest(es, slot) == Some(es[i].value)
  {
    var j :| (0 <= j < |es| && es[j].role == Writes(slot)
      && Latest(es, slot).value == es[j].value
      && forall m :: j < m < |es| ==> es[m].role != Writes(slot));
  }

  /** With a single writer per slot, the slot holds that key's trimmed value
      whatever the iteration order. */
  lemma {:induction false} LatestIsKeyValue(props: Props, keys: seq<string>, slot: Slot, k: string)
    requires Enumerates(keys, props) && SingleWriters(props)
    requires k in props && Role(k) == Writes(slot)
    ensures Latest(Entries(props, keys), slot) == Some(Trim(props[k]))
  {
    var es := Entries(props, keys);
    var i :| 0 <= i < |keys| && keys[i] == k;
    forall j | 0 <= j < |es| && es[j].role == Writes(slot) ensures j == i {
      assert keys[j] in props && Role(keys[j]) == Role(k);
      assert keys[j] == k;
    }
    LatestOfSoleWriter(es, slot, i);
  }

  /** A slot no key writes stays unset. */
  lemma {:induction false} LatestOfUnwritten(props: Props, keys: seq<string>, slot: Slot)
    requires Enumerates(keys, props)
    requires forall k :: k in props ==> Role(k) != Writes(slot)
    ensures Latest(Entries(props, keys), slot) == None
  {
    var es := Entries(props, keys);
    forall i | 0 <= i < |es| ensures es[i].role != Writes(slot) {
      assert keys[i] in props;
    }
  }

  lemma LatestOrderFree(props: Props, k1: seq<string>, k2: seq<string>, slot: Slot)
    requires Enumerates(k1, props) && Enumerates(k2, props) && SingleWriters(props)
    ensures Latest(Entries(props, k1), slot) == Latest(Entries(props, k2), slot)
  {
    if exists k :: k in props && Role(k) == Writes(slot) {
      var k :| k in props && Role(k) == Writes(slot);
      LatestIsKeyValue(props, k1, slot, k);
      LatestIsKeyValue(props, k2, slot, k);
    } else {
      LatestOfUnwritten(props, k1, slot);
      LatestOfUnwritten(props, k2, slot);
    }
  }

  /** A key of the properties writes rule `n` exactly when some entry does. */
  lemma WritesRuleOfKeys(props: Props, keys: seq<string>, n: int)
    requires Enumerates(keys, props)
    ensures (exists i :: 0 <= i < |keys| && WritesRule(Entries(props, keys)[i], n)) <==>
      (exists k :: k in props && Role(k).Writes? && Role(k).slot.RuleSlot? && Role(k).slot.index == n)
  {
    var es := Entries(props, keys);
    if exists k :: k in props && Role(k).Writes? && Role(k).slot.RuleSlot? && Role(k).slot.index == n {
      var k :| k in props && Role(k).Writes? && Role(k).slot.RuleSlot? && Role(k).slot.index == n;
      var i :| 0 <= i < |keys| && keys[i] == k;
      assert WritesRule(es[i], n);
    }
    if exists i :: 0 <= i < |keys| && WritesRule(es[i], n) {
      var i :| 0 <= i < |keys| && WritesRule(es[i], n);
      assert keys[i] in props && Role(keys[i]) == es[i].role;
    }
  }

  /** Whether the parse fails does not depend on the iteration order; when each
      slot has a single writer, neither does the configuration it produces (the
      error reported is the first malformed key met, which does). */
  lemma {:induction false} LoadOrderFree(defaults: Source, extra: Source, k1: seq<string>, k2: seq<string>)
    requires Effective(defaults, extra).Some? ==>
      Enumerates(k1, Effective(defaults, extra).value) && Enumerates(k2, Effective(defaults, extra).value)
    ensures Load(defaults, extra, k1).Success? == Load(defaults, extra, k2).Success?
    ensures (Load(defaults, extra, k1).Success? && Effective(defaults, extra).Some? &&
             SingleWriters(Effective(defaults, extra).value)) ==>
      Load(defaults, extra, k1) == Load(defaults, extra, k2)
  {
    match Effective(defaults, extra)
    case None =>
    case Some(props) =>
      ParseOrderFree(props, k1, k2);
  }

  lemma ParseOrderFree(props: Props, k1: seq<string>, k2: seq<string>)
    requires Enumerates(k1, props) && Enumerates(k2, props)
    ensures Build(Entries(props, k1)).Success? == Build(Entries(props, k2)).Success?
    ensures SingleWriters(props) && Build(Entries(props, k1)).Success? ==>
      Build(Entries(props, k1)) == Build(Entries(props, k2))
  {
    var es1 := Entries(props, k1);
    var es2 := Entries(props, k2);
    MalformedOrderFree(props, k1, k2);
    assert Build(es1).Success? == Build(es2).Success?;
    if SingleWriters(props) && Build(es1).Success? {
      BuildOrderFree(props, k1, k2);
    }
  }

  /** Whether some key is malformed does not depend on the enumeration. */
  lemma MalformedOrderFree(props: Props, k1: seq<string>, k2: seq<string>)
    requires Enumerates(k1, props) && Enumerates(k2, props)
    ensures (forall i :: 0 <= i < |k1| ==> !Entries(props, k1)[i].role.Malformed?) <==>
      (forall i :: 0 <= i < |k2| ==> !Entries(props, k2)[i].role.Malformed?)
  {
    var es1 := Entries(props, k1);
    var es2 := Entries(props, k2);
    if exists i :: 0 <= i < |k1| && es1[i].role.Malformed? {
      var i :| 0 <= i < |k1| && es1[i].role.Malformed?;
      var j :| 0 <= j < |k2| && k2[j] == k1[i];
      assert es2[j].role == es1[i].role;
    }
    if exists i :: 0 <= i < |k2| && es2[i].role.Malformed? {
      var i :| 0 <= i < |k2| && es2[i].role.Malformed?;
      var j :| 0 <= j < |k1| && k1[j] == k2[i];
      assert es1[j].role == es2[i].role;
    }
  }

  lemma {:induction false} BuildOrderFree(props: Props, k1: seq<string>, k2: seq<string>)
    requires Enumerates(k1, props) && Enumerates(k2, props) && SingleWriters(props)
    requires forall i :: 0 <= i < |k1| ==> !Entries(props, k1)[i].role.Malformed?
    requires forall i :: 0 <= i < |k2| ==> !Entries(props, k2)[i].role.Malformed?
    ensures Build(Entries(props, k1)) == Build(Entries(props, k2))
  {
    var es1 := Entries(props, k1);
    var es2 := Entries(props, k2);
    var st1 := Collect(es1).value;
    var st2 := Collect(es2).value;
    forall slot ensures Lookup(st1, slot) == Lookup(st2, slot) {
      LatestOrderFree(props, k1, k2, slot);
    }
    SameLookups(st1, st2);
    forall n ensures n in RuleIndexList(es1) <==> n in RuleIndexList(es2) {
      WritesRuleOfKeys(props, k1, n);
      WritesRuleOfKeys(props, k2, n);
    }
    IncreasingUnique(SortUnique(RuleIndexList(es1)), SortUnique(RuleIndexList(es2)));
  }

  lemma SameLookups<K, V>(m1: map<K, V>, m2: map<K, V>)
    requires forall k :: Lookup(m1, k) == Lookup(m2, k)
    ensures m1 == m2
  {
    forall k | k in m1 ensures k in m2 && m1[k] == m2[k] {
      assert Lookup(m1, k) == Lookup(m2, k);
    }
    forall k | k in m2 ensures k in m1 {
      assert Lookup(m1, k) == Lookup(m2, k);
    }
  }

  // ---------------------------------------------------------------------------
  // The rule comparator (lines 137-142)
  // ---------------------------------------------------------------------------

  /** A mathematical int reduced to Java's 32-bit two's complement range. */
  function Wrap32(x: int): (r: int)
    ensures MinInt <= r <= MaxInt
    ensures (x - r) % 0x1_0000_0000 == 0
    ensures MinInt <= x <= MaxInt ==> r == x
  {
    var m := x % 0x1_0000_0000;
    if m > MaxInt then m - 0x1_0000_0000 else m
  }

  /** The comparator as written, `r1.index - r2.index` in int arithmetic: its
      sign is the order of the indices whenever the difference fits in 32 bits. */
  function IndexCompareAsWritten(a: int, b: int): (r: int)
    requires MinInt <= a <= MaxInt && MinInt <= b <= MaxInt
    ensures MinInt <= a - b <= MaxInt ==> (r < 0 <==> a < b) && (r == 0 <==> a == b)
  {
    Wrap32(a - b)
  }

  /** Non-negative indices never overflow the subtraction. */
  lemma IndexCompareOfNaturals(a: int, b: int)
    requires 0 <= a <= MaxInt && 0 <= b <= MaxInt
    ensures IndexCompareAsWritten(a, b) < 0 <==> a < b
    ensures IndexCompareAsWritten(a, b) == 0 <==> a == b
  {
  }

  /** The list `Collections.sort` must produce: no later element compares
      below an earlier one under the comparator as written. */
  predicate SortedAsWritten(s: seq<int>)
  {
    forall i, j :: 0 <= i < j < |s| ==> Wrap32(s[i] - s[j]) <= 0
  }

  /** No arrangement of the indices -2, 0 and 2147483647 is sorted by the
      comparator as written, so the sort has no correct answer to give. */
  lemma NoArrangementSortedAsWritten(s: seq<int>)
    requires multiset(s) == multiset{-2, 0, MaxInt}
    ensures !SortedAsWritten(s)
  {
    ArrangementOfThree(s);
    OutOfOrderPair(s[0], s[1], s[2]);
  }

  lemma ArrangementOfThree(s: seq<int>)
    requires multiset(s) == multiset{-2, 0, MaxInt}
    ensures |s| == 3 && s[0] != s[1] && s[1] != s[2] && s[0] != s[2]
    ensures forall k :: 0 <= k < 3 ==> s[k] == -2 || s[k] == 0 || s[k] == MaxInt
  {
    assert |s| == 3 by {
      assert |multiset(s)| == |s|;
    }
    assert s == [s[0], s[1], s[2]];
    assert multiset(s)[s[0]] == 1 && multiset(s)[s[1]] == 1 && multiset(s)[s[2]] == 1;
    forall k | 0 <= k < 3 ensures s[k] == -2 || s[k] == 0 || s[k] == MaxInt {
      assert s[k] in multiset(s);
    }
  }

  /** In every arrangement of the three indices some earlier one compares
      above a later one. */
  lemma OutOfOrderPair(a: int, b: int, c: int)
    requires a != b && b != c && a != c
    requires a in {-2, 0, MaxInt} && b in {-2, 0, MaxInt} && c in {-2, 0, MaxInt}
    ensures Wrap32(a - b) > 0 || Wrap32(a - c) > 0 || Wrap32(b - c) > 0
  {
    if a == -2 && b == 0 {
      assert Wrap32(a - c) > 0;
    } else if a == -2 {
      assert Wrap32(a - b) > 0;
    } else if a == 0 {
      assert Wrap32(a - b) > 0 || Wrap32(a - c) > 0;
    } else if b == 0 {
      assert Wrap32(a - b) > 0;
    } else {
      assert Wrap32(a - c) > 0;
    }
  }

  /** With a negative index the subtraction can overflow and the comparator
      stops being an order: -2 before 0 before 2147483647, yet 2147483647
      before -2. */
  lemma IndexCompareNotTransitive()
    ensures IndexCompareAsWritten(-2, 0) < 0
    ensures IndexCompareAsWritten(0, MaxInt) < 0
    ensures IndexCompareAsWritten(-2, MaxInt) > 0
  {
  }
}
