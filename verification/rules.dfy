/**
 * The rule engine of `rules.cpp`: three ordered rule lists (the main rules,
 * the keep rules and the remove rules), the fixed blank, keep and default
 * rules, and the selection of the rule that converts an element.
 *
 * A rule's filter and replacement are `std::function`s in the source. Here
 * they are closed datatypes: the filters and replacements the converter
 * itself builds are named constructors, and a caller's own filter or
 * replacement is a total function value.
 */
module RulesEngine {

  import opened Strings
  import opened Wrappers
  import opened Dom
  import opened Options
  import Utilities
  import NodeAnalysis
  import HtmlSerialize
  import CommonMarkRules

  // ----- Rules -----

  /** What a rule's filter tests. */
  datatype Filter =
    | AnyNode                                   // the blank, keep and default rules
    | TagFilter(names: seq<Str>)                // `makeTagFilter`, over normalised names
    | BuiltinFilter(kind: CommonMarkRules.RuleKind)
    | CustomFilter(pred: (TurndownOptions, Node, Path) -> bool)

  /** What a rule's replacement computes. */
  datatype ReplacementFn =
    | BuiltinReplacement(kind: CommonMarkRules.RuleKind)
    | KeepReplacement                           // the options' `keepReplacement`
    | RemoveReplacement                         // the empty string
    | BlankReplacement                          // the options' `blankReplacement`
    | DefaultReplacement                        // the options' `defaultReplacement`
    | CustomReplacement(f: (Str, TurndownOptions, Node, Path) -> Str)

  /** A rule's `append`: none, the reference store's flush, or a caller's function. */
  datatype Append = NoAppend | ReferenceAppend | CustomAppend(f: TurndownOptions -> Str)

  datatype Rule = Rule(filter: Filter, replacement: ReplacementFn, append: Append, key: Str)

  const BlankRule := Rule(AnyNode, BlankReplacement, NoAppend, "blank")
  const KeepReplacementRule := Rule(AnyNode, KeepReplacement, NoAppend, "keep-replacement")
  const DefaultRule := Rule(AnyNode, DefaultReplacement, NoAppend, "default")

  /** A rule's filter applied to the node at `p`, with the options the rules were built with. */
  predicate FilterMatches(f: Filter, o: TurndownOptions, root: Node, p: Path)
  {
    match f
    case AnyNode => true
    case TagFilter(names) => ValidPath(root, p) && At(root, p).Element? && At(root, p).tag in names
    case BuiltinFilter(kind) => CommonMarkRules.Matches(kind, o, root, p)
    case CustomFilter(pred) => pred(o, root, p)
  }

  predicate RuleMatches(rule: Rule, o: TurndownOptions, root: Node, p: Path)
  {
    FilterMatches(rule.filter, o, root, p)
  }

  // ----- findRule -----

  /**
   * The index of the first rule from `k` on whose filter matches the node, if
   * any: every rule before it fails to match.
   */
  function FirstMatchFrom(rules: seq<Rule>, o: TurndownOptions, root: Node, p: Path, k: nat): (r: Option<nat>)
    requires k <= |rules|
    ensures r.Some? ==>
      k <= r.value < |rules| && RuleMatches(rules[r.value], o, root, p)
      && forall j :: k <= j < r.value ==> !RuleMatches(rules[j], o, root, p)
    ensures r.None? ==> forall j :: k <= j < |rules| ==> !RuleMatches(rules[j], o, root, p)
    decreases |rules| - k
  {
    if k == |rules| then None
    else if RuleMatches(rules[k], o, root, p) then Some(k)
    else FirstMatchFrom(rules, o, root, p, k + 1)
  }

  function FirstMatch(rules: seq<Rule>, o: TurndownOptions, root: Node, p: Path): Option<nat>
  {
    FirstMatchFrom(rules, o, root, p, 0)
  }

  /** The first matching rule is determined by which rules match: any index with that property is it. */
  lemma FirstMatchUnique(rules: seq<Rule>, o: TurndownOptions, root: Node, p: Path, i: nat)
    requires i < |rules| && RuleMatches(rules[i], o, root, p)
    requires forall j :: 0 <= j < i ==> !RuleMatches(rules[j], o, root, p)
    ensures FirstMatch(rules, o, root, p) == Some(i)
  {
  }

  // ----- forNode -----

  /** The rule lists of a `Rules` object, as values. */
  datatype RuleSet = RuleSet(rulesArray: seq<Rule>, keepRules: seq<Rule>, removeRules: seq<Rule>)

  const EmptyRuleSet := RuleSet([], [], [])

  /** Which rule `forNode` picks: the blank rule, a main, keep or remove rule by index, or the default rule. */
  datatype Choice = BlankChoice | MainChoice(i: nat) | KeepChoice(i: nat) | RemoveChoice(i: nat) | DefaultChoice

  /** A node that is not void and is blank gets the blank rule, whatever else matches. */
  predicate BlankNode(root: Node, p: Path, ov: Collapsed)
    requires ValidPath(root, p)
  {
    var n := At(root, p);
    !Utilities.IsVoid(n) && NodeAnalysis.IsBlank(n, p, ov)
  }

  /** `forNode`'s choice for the node at `p`; `blank` says whether it is a blank non-void node. */
  function Selection(o: TurndownOptions, rs: RuleSet, root: Node, p: Path, blank: bool): Choice
  {
    if blank then BlankChoice
    else match FirstMatch(rs.rulesArray, o, root, p)
      case Some(i) => MainChoice(i)
      case None => match FirstMatch(rs.keepRules, o, root, p)
        case Some(i) => KeepChoice(i)
        case None => match FirstMatch(rs.removeRules, o, root, p)
          case Some(i) => RemoveChoice(i)
          case None => DefaultChoice
  }

  /** The rule a choice names. */
  function ChosenRule(rs: RuleSet, c: Choice): Rule
  {
    match c
    case BlankChoice => BlankRule
    case MainChoice(i) => if i < |rs.rulesArray| then rs.rulesArray[i] else DefaultRule
    case KeepChoice(i) => if i < |rs.keepRules| then rs.keepRules[i] else DefaultRule
    case RemoveChoice(i) => if i < |rs.removeRules| then rs.removeRules[i] else DefaultRule
    case DefaultChoice => DefaultRule
  }

  function SelectedRule(o: TurndownOptions, rs: RuleSet, root: Node, p: Path, ov: Collapsed): Rule
    requires ValidPath(root, p)
  {
    ChosenRule(rs, Selection(o, rs, root, p, BlankNode(root, p, ov)))
  }

  /** No rule of the list matches the node. */
  predicate NoneMatch(rules: seq<Rule>, o: TurndownOptions, root: Node, p: Path)
  {
    forall j :: 0 <= j < |rules| ==> !RuleMatches(rules[j], o, root, p)
  }

  /** The rule at `i` is the first of the list to match. */
  predicate FirstToMatch(rules: seq<Rule>, i: nat, o: TurndownOptions, root: Node, p: Path)
  {
    i < |rules| && RuleMatches(rules[i], o, root, p)
    && forall j :: 0 <= j < i ==> !RuleMatches(rules[j], o, root, p)
  }

  /**
   * The precedence of `forNode`: a blank non-void node gets the blank rule;
   * otherwise the first matching main rule; only when no main rule matches,
   * the first matching keep rule; only when no keep rule matches either, the
   * first matching remove rule; and the default rule exactly when nothing
   * matches. Whatever is chosen matches the node.
   */
  lemma SelectionMeans(o: TurndownOptions, rs: RuleSet, root: Node, p: Path, blank: bool)
    ensures var c := Selection(o, rs, root, p, blank);
      (c.BlankChoice? <==> blank)
      && (c.MainChoice? ==> !blank && FirstToMatch(rs.rulesArray, c.i, o, root, p))
      && (c.KeepChoice? ==>
            !blank && NoneMatch(rs.rulesArray, o, root, p) && FirstToMatch(rs.keepRules, c.i, o, root, p))
      && (c.RemoveChoice? ==>
            !blank && NoneMatch(rs.rulesArray, o, root, p) && NoneMatch(rs.keepRules, o, root, p)
            && FirstToMatch(rs.removeRules, c.i, o, root, p))
      && (c.DefaultChoice? <==>
            !blank && NoneMatch(rs.rulesArray, o, root, p) && NoneMatch(rs.keepRules, o, root, p)
            && NoneMatch(rs.removeRules, o, root, p))
      && RuleMatches(ChosenRule(rs, c), o, root, p)
  {
  }

  // ----- Replacements -----

  /**
   * What a rule's replacement returns for the node at `p` with converted
   * content `content` when `stored` references are in the store. The blank,
   * keep and default replacements are the options' defaults.
   */
  function RuleOutput(rule: Rule, o: TurndownOptions, content: Str, root: Node, p: Path, ov: Collapsed, stored: nat)
    : (r: Result<CommonMarkRules.Replaced, StoiError>)
    requires ValidPath(root, p)
    ensures r.Err? ==> rule.replacement == BuiltinReplacement(CommonMarkRules.ListItem)
    ensures r.Ok? && r.value.reference.Some? ==>
      rule.replacement == BuiltinReplacement(CommonMarkRules.ReferenceLink)
  {
    var n := At(root, p);
    match rule.replacement
    case BuiltinReplacement(kind) => CommonMarkRules.Replacement(kind, o, content, root, p, ov, stored)
    case KeepReplacement => Ok(CommonMarkRules.Replaced(HtmlSerialize.Serialized(n), None))
    case RemoveReplacement => Ok(CommonMarkRules.Replaced([], None))
    case BlankReplacement =>
      Ok(CommonMarkRules.Replaced(if Utilities.IsBlock(n) then "\n\n" else [], None))
    case DefaultReplacement =>
      Ok(CommonMarkRules.Replaced(if Utilities.IsBlock(n) then "\n\n" + content + "\n\n" else content, None))
    case CustomReplacement(f) => Ok(CommonMarkRules.Replaced(f(content, o, root, p), None))
  }

  // ----- Rule-list mutations -----

  /**
   * One call a caller can make on a `Rules` object: `addRule`, or one of the
   * three `keep` and three `remove` overloads.
   */
  datatype Mutation =
    | AddRuleMutation(key: Str, rule: Rule)
    | KeepTag(tag: Str)
    | KeepTags(tags: seq<Str>)
    | KeepCustom(pred: (TurndownOptions, Node, Path) -> bool)
    | RemoveTag(tag: Str)
    | RemoveTags(tags: seq<Str>)
    | RemoveCustom(pred: (TurndownOptions, Node, Path) -> bool)

  /** `normalizeTags`: each name lower-cased. */
  function Normalized(tags: seq<Str>): (r: seq<Str>)
    ensures |r| == |tags|
    ensures forall i :: 0 <= i < |tags| ==> r[i] == Lower(tags[i])
  {
    if tags == [] then [] else [Lower(tags[0])] + Normalized(tags[1..])
  }

  function KeepRule(f: Filter, suffix: Str): Rule
  {
    Rule(f, KeepReplacement, NoAppend, "keep-" + suffix)
  }

  function RemoveRule(f: Filter, suffix: Str): Rule
  {
    Rule(f, RemoveReplacement, NoAppend, "remove-" + suffix)
  }

  /** The rule lists after one mutation. */
  function Applied(rs: RuleSet, m: Mutation): RuleSet
  {
    match m
    case AddRuleMutation(key, rule) => rs.(rulesArray := [rule.(key := key)] + rs.rulesArray)
    case KeepTag(tag) => rs.(keepRules := [KeepRule(TagFilter(Normalized([tag])), tag)] + rs.keepRules)
    case KeepTags(tags) => rs.(keepRules := [KeepRule(TagFilter(Normalized(tags)), "multi")] + rs.keepRules)
    case KeepCustom(pred) => rs.(keepRules := [KeepRule(CustomFilter(pred), "custom")] + rs.keepRules)
    case RemoveTag(tag) => rs.(removeRules := [RemoveRule(TagFilter(Normalized([tag])), tag)] + rs.removeRules)
    case RemoveTags(tags) => rs.(removeRules := [RemoveRule(TagFilter(Normalized(tags)), "multi")] + rs.removeRules)
    case RemoveCustom(pred) => rs.(removeRules := [RemoveRule(CustomFilter(pred), "custom")] + rs.removeRules)
  }

  /** The rule lists after a sequence of mutations, applied first to last. */
  function AppliedAll(rs: RuleSet, ms: seq<Mutation>): RuleSet
    decreases |ms|
  {
    if ms == [] then rs else Applied(AppliedAll(rs, ms[..|ms| - 1]), ms[|ms| - 1])
  }

  /** The three rule lists, named. */
  datatype ListKind = MainList | KeepList | RemoveList

  function ListOf(rs: RuleSet, which: ListKind): seq<Rule>
  {
    match which
    case MainList => rs.rulesArray
    case KeepList => rs.keepRules
    case RemoveList => rs.removeRules
  }

  /** The rules one mutation puts at the front of the list `which`. */
  function AddedBy(m: Mutation, which: ListKind): seq<Rule>
  {
    var e := EmptyRuleSet;
    ListOf(Applied(e, m), which)
  }

  /** The rules a sequence of mutations adds to the list `which`, latest first. */
  function Added(ms: seq<Mutation>, which: ListKind): seq<Rule>
    decreases |ms|
  {
    if ms == [] then [] else AddedBy(ms[|ms| - 1], which) + Added(ms[..|ms| - 1], which)
  }

  /**
   * Mutations only ever insert at the front: after them, each list is the
   * rules they added, latest first, followed by the list as it was.
   */
  lemma {:induction false} AppliedAllLists(rs: RuleSet, ms: seq<Mutation>, which: ListKind)
    ensures ListOf(AppliedAll(rs, ms), which) == Added(ms, which) + ListOf(rs, which)
    decreases |ms|
  {
    if ms != [] {
      var init := ms[..|ms| - 1];
      AppliedAllLists(rs, init, which);
      AppliedFront(AppliedAll(rs, init), ms[|ms| - 1], which);
    }
  }

  /** One mutation inserts its rules at the front of one list and leaves the lists otherwise as they were. */
  lemma AppliedFront(rs: RuleSet, m: Mutation, which: ListKind)
    ensures ListOf(Applied(rs, m), which) == AddedBy(m, which) + ListOf(rs, which)
  {
    match which
    case MainList =>
      if m.AddRuleMutation? {
        assert AddedBy(m, which) == [m.rule.(key := m.key)];
      } else {
        assert AddedBy(m, which) == [];
      }
    case KeepList =>
      if m.KeepTag? || m.KeepTags? || m.KeepCustom? {
        assert AddedBy(m, which) == [Applied(rs, m).keepRules[0]];
      } else {
        assert AddedBy(m, which) == [];
      }
    case RemoveList =>
      if m.RemoveTag? || m.RemoveTags? || m.RemoveCustom? {
        assert AddedBy(m, which) == [Applied(rs, m).removeRules[0]];
      } else {
        assert AddedBy(m, which) == [];
      }
  }

  /**
   * A rule added by `addRule` takes priority over every rule already there:
   * for any node it matches that is not blank, it is the rule chosen.
   */
  lemma AddedRuleWins(o: TurndownOptions, rs: RuleSet, key: Str, rule: Rule, root: Node, p: Path)
    requires RuleMatches(rule, o, root, p)
    ensures var after := Applied(rs, AddRuleMutation(key, rule));
      var c := Selection(o, after, root, p, false);
      c == MainChoice(0) && ChosenRule(after, c) == rule.(key := key)
  {
    var after := Applied(rs, AddRuleMutation(key, rule));
    assert RuleMatches(after.rulesArray[0], o, root, p);
    FirstMatchUnique(after.rulesArray, o, root, p, 0);
  }

  /**
   * After `keep(tag)`, an element whose tag is the lower-cased `tag`, that is
   * not blank and that no main rule matches, is kept: its replacement is its
   * own HTML.
   */
  lemma KeepTagKeeps(o: TurndownOptions, rs: RuleSet, tag: Str, root: Node, p: Path, ov: Collapsed, content: Str, stored: nat)
    requires ValidPath(root, p) && HasTag(At(root, p), Lower(tag))
    requires NoneMatch(rs.rulesArray, o, root, p)
    ensures var after := Applied(rs, KeepTag(tag));
      var c := Selection(o, after, root, p, false);
      c == KeepChoice(0)
      && RuleOutput(ChosenRule(after, c), o, content, root, p, ov, stored)
         == Ok(CommonMarkRules.Replaced(HtmlSerialize.Serialized(At(root, p)), None))
  {
    var after := Applied(rs, KeepTag(tag));
    KeepFirst(o, rs, tag, root, p);
    assert FirstMatch(after.rulesArray, o, root, p).None?;
    KeptOutput(after.keepRules[0], o, content, root, p, ov, stored);
  }

  lemma KeptOutput(rule: Rule, o: TurndownOptions, content: Str, root: Node, p: Path, ov: Collapsed, stored: nat)
    requires ValidPath(root, p) && rule.replacement == KeepReplacement
    ensures RuleOutput(rule, o, content, root, p, ov, stored)
      == Ok(CommonMarkRules.Replaced(HtmlSerialize.Serialized(At(root, p)), None))
  {
  }

  lemma KeepFirst(o: TurndownOptions, rs: RuleSet, tag: Str, root: Node, p: Path)
    requires ValidPath(root, p) && HasTag(At(root, p), Lower(tag))
    ensures FirstMatch(Applied(rs, KeepTag(tag)).keepRules, o, root, p) == Some(0)
  {
    var after := Applied(rs, KeepTag(tag));
    assert Normalized([tag])[0] == Lower(tag);
    assert RuleMatches(after.keepRules[0], o, root, p);
    FirstMatchUnique(after.keepRules, o, root, p, 0);
  }

  /**
   * After `remove(tag)`, an element with the lower-cased `tag` that is not
   * blank and that no main or keep rule matches converts to nothing.
   */
  lemma RemoveTagRemoves(o: TurndownOptions, rs: RuleSet, tag: Str, root: Node, p: Path, ov: Collapsed, content: Str, stored: nat)
    requires ValidPath(root, p) && HasTag(At(root, p), Lower(tag))
    requires NoneMatch(rs.rulesArray, o, root, p) && NoneMatch(rs.keepRules, o, root, p)
    ensures var after := Applied(rs, RemoveTag(tag));
      var c := Selection(o, after, root, p, false);
      c == RemoveChoice(0)
      && RuleOutput(ChosenRule(after, c), o, content, root, p, ov, stored) == Ok(CommonMarkRules.Replaced([], None))
  {
    var after := Applied(rs, RemoveTag(tag));
    RemoveFirst(o, rs, tag, root, p);
    assert FirstMatch(after.rulesArray, o, root, p).None?;
    assert FirstMatch(after.keepRules, o, root, p).None?;
    RemovedOutput(after.removeRules[0], o, content, root, p, ov, stored);
  }

  lemma RemovedOutput(rule: Rule, o: TurndownOptions, content: Str, root: Node, p: Path, ov: Collapsed, stored: nat)
    requires ValidPath(root, p) && rule.replacement == RemoveReplacement
    ensures RuleOutput(rule, o, content, root, p, ov, stored) == Ok(CommonMarkRules.Replaced([], None))
  {
  }

  lemma RemoveFirst(o: TurndownOptions, rs: RuleSet, tag: Str, root: Node, p: Path)
    requires ValidPath(root, p) && HasTag(At(root, p), Lower(tag))
    ensures FirstMatch(Applied(rs, RemoveTag(tag)).removeRules, o, root, p) == Some(0)
  {
    var after := Applied(rs, RemoveTag(tag));
    assert Normalized([tag])[0] == Lower(tag);
    assert RuleMatches(after.removeRules[0], o, root, p);
    FirstMatchUnique(after.removeRules, o, root, p, 0);
  }

  /** A filter from `makeTagFilter` matches exactly the elements whose tag is one of the names lower-cased. */
  lemma TagFilterMeans(o: TurndownOptions, tags: seq<Str>, root: Node, p: Path)
    requires ValidPath(root, p)
    ensures FilterMatches(TagFilter(Normalized(tags)), o, root, p) <==>
      At(root, p).Element? && exists i :: 0 <= i < |tags| && Lower(tags[i]) == At(root, p).tag
  {
    var names := Normalized(tags);
    if FilterMatches(TagFilter(names), o, root, p) {
      var i :| 0 <= i < |names| && names[i] == At(root, p).tag;
      assert Lower(tags[i]) == At(root, p).tag;
    }
  }

  // ----- The Rules object -----

  /**
   * `Rules`: the options the rules were built with, the three rule lists and
   * the reference store that the built-in reference-link rule shares with its
   * append (one store per rebuild).
   */
  class Rules {
    const options: TurndownOptions
    const store: CommonMarkRules.ReferenceStore
    var rulesArray: seq<Rule>
    var keepRules: seq<Rule>
    var removeRules: seq<Rule>

    function Snapshot(): RuleSet
      reads this
    {
      RuleSet(rulesArray, keepRules, removeRules)
    }

    /** Empty rule lists; the blank, keep and default rules are the constants above. */
    constructor (o: TurndownOptions)
      ensures options == o && Snapshot() == EmptyRuleSet
      ensures fresh(store) && store.references == []
    {
      options := o;
      store := new CommonMarkRules.ReferenceStore();
      rulesArray := [];
      keepRules := [];
      removeRules := [];
    }

    /** `addRule`: the rule, under `key`, goes to the front of the main list. */
    method AddRule(key: Str, rule: Rule)
      modifies this
      ensures Snapshot() == Applied(old(Snapshot()), AddRuleMutation(key, rule))
    {
      rulesArray := [rule.(key := key)] + rulesArray;
    }

    /** `normalizeTags`: lower-cases each name. */
    static method NormalizeTags(tags: seq<Str>) returns (r: seq<Str>)
      ensures r == Normalized(tags)
    {
      r := [];
      for i := 0 to |tags|
        invariant r == Normalized(tags[..i])
      {
        assert tags[..i + 1] == tags[..i] + [tags[i]];
        NormalizedAppend(tags[..i], tags[i]);
        r := r + [Lower(tags[i])];
      }
      assert tags[..|tags|] == tags;
    }

    /** `makeTagFilter`: a filter over the normalised names. */
    static method MakeTagFilter(filters: seq<Str>) returns (f: Filter)
      ensures f == TagFilter(Normalized(filters))
    {
      var names := NormalizeTags(filters);
      f := TagFilter(names);
    }

    /** `addKeepRule`: a keep rule keyed `keep-<suffix>` goes to the front of the keep list. */
    method AddKeepRule(f: Filter, suffix: Str)
      modifies this
      ensures Snapshot() == old(Snapshot()).(keepRules := [KeepRule(f, suffix)] + old(keepRules))
    {
      keepRules := [Rule(f, KeepReplacementRule.replacement, NoAppend, "keep-" + suffix)] + keepRules;
    }

    /** `addRemoveRule`: a remove rule keyed `remove-<suffix>` goes to the front of the remove list. */
    method AddRemoveRule(f: Filter, suffix: Str)
      modifies this
      ensures Snapshot() == old(Snapshot()).(removeRules := [RemoveRule(f, suffix)] + old(removeRules))
    {
      removeRules := [Rule(f, RemoveReplacement, NoAppend, "remove-" + suffix)] + removeRules;
    }

    method Keep(tag: Str)
      modifies this
      ensures Snapshot() == Applied(old(Snapshot()), KeepTag(tag))
    {
      var f := MakeTagFilter([tag]);
      AddKeepRule(f, tag);
    }

    method KeepAll(tags: seq<Str>)
      modifies this
      ensures Snapshot() == Applied(old(Snapshot()), KeepTags(tags))
    {
      var f := MakeTagFilter(tags);
      AddKeepRule(f, "multi");
    }

    method KeepWhere(pred: (TurndownOptions, Node, Path) -> bool)
      modifies this
      ensures Snapshot() == Applied(old(Snapshot()), KeepCustom(pred))
    {
      AddKeepRule(CustomFilter(pred), "custom");
    }

    method Remove(tag: Str)
      modifies this
      ensures Snapshot() == Applied(old(Snapshot()), RemoveTag(tag))
    {
      var f := MakeTagFilter([tag]);
      AddRemoveRule(f, tag);
    }

    method RemoveAll(tags: seq<Str>)
      modifies this
      ensures Snapshot() == Applied(old(Snapshot()), RemoveTags(tags))
    {
      var f := MakeTagFilter(tags);
      AddRemoveRule(f, "multi");
    }

    method RemoveWhere(pred: (TurndownOptions, Node, Path) -> bool)
      modifies this
      ensures Snapshot() == Applied(old(Snapshot()), RemoveCustom(pred))
    {
      AddRemoveRule(CustomFilter(pred), "custom");
    }

    /** Runs one mutation on the rule lists. */
    method Apply(m: Mutation)
      modifies this
      ensures Snapshot() == Applied(old(Snapshot()), m)
    {
      match m
      case AddRuleMutation(key, rule) => AddRule(key, rule);
      case KeepTag(tag) => Keep(tag);
      case KeepTags(tags) => KeepAll(tags);
      case KeepCustom(pred) => KeepWhere(pred);
      case RemoveTag(tag) => Remove(tag);
      case RemoveTags(tags) => RemoveAll(tags);
      case RemoveCustom(pred) => RemoveWhere(pred);
    }

    /** Runs a sequence of mutations in order. */
    method ApplyAll(ms: seq<Mutation>)
      modifies this
      ensures Snapshot() == AppliedAll(old(Snapshot()), ms)
    {
      for i := 0 to |ms|
        invariant Snapshot() == AppliedAll(old(Snapshot()), ms[..i])
      {
        assert ms[..i + 1][..i] == ms[..i];
        Apply(ms[i]);
      }
      assert ms[..|ms|] == ms;
    }

    /** `findRule`: the index of the first candidate whose filter matches, if any. */
    method FindRule(candidates: seq<Rule>, root: Node, p: Path) returns (r: Option<nat>)
      ensures r == FirstMatch(candidates, options, root, p)
    {
      for i := 0 to |candidates|
        invariant forall j :: 0 <= j < i ==> !RuleMatches(candidates[j], options, root, p)
      {
        var matched := MatchesNode(candidates[i].filter, root, p);
        if matched {
          FirstMatchUnique(candidates, options, root, p, i);
          return Some(i);
        }
      }
      return None;
    }

    /** A filter invoked on a node with the rules' options. */
    method MatchesNode(f: Filter, root: Node, p: Path) returns (b: bool)
      ensures b == FilterMatches(f, options, root, p)
    {
      match f
      case AnyNode => b := true;
      case TagFilter(names) =>
        if !ValidPath(root, p) || !At(root, p).Element? {
          return false;
        }
        var tag := At(root, p).tag;
        b := false;
        for i := 0 to |names|
          invariant b == (tag in names[..i])
        {
          assert names[..i + 1] == names[..i] + [names[i]];
          if names[i] == tag {
            b := true;
          }
        }
        assert names[..|names|] == names;
      case BuiltinFilter(kind) => b := CommonMarkRules.Matches(kind, options, root, p);
      case CustomFilter(pred) => b := pred(options, root, p);
    }

    /** `forNode`: the blank rule for a blank non-void node, else the main, keep and remove lists in turn, else the default rule. */
    method ForNode(root: Node, p: Path, ov: Collapsed) returns (rule: Rule)
      requires ValidPath(root, p)
      ensures rule == SelectedRule(options, Snapshot(), root, p, ov)
    {
      var n := At(root, p);
      var blank := NodeAnalysis.CheckBlank(n, p, ov);
      rule := Select(root, p, !Utilities.IsVoid(n) && blank);
    }

    /** The list lookups of `forNode`, once blankness is known. */
    method Select(root: Node, p: Path, blank: bool) returns (rule: Rule)
      ensures rule == ChosenRule(Snapshot(), Selection(options, Snapshot(), root, p, blank))
    {
      if blank {
        return BlankRule;
      }
      var main := FindRule(rulesArray, root, p);
      if main.Some? {
        return rulesArray[main.value];
      }
      var kept := FindRule(keepRules, root, p);
      if kept.Some? {
        return keepRules[kept.value];
      }
      var removed := FindRule(removeRules, root, p);
      if removed.Some? {
        return removeRules[removed.value];
      }
      return DefaultRule;
    }

    /** Runs a rule's replacement; the built-in reference-link replacement pushes to the store. */
    method RunReplacement(rule: Rule, content: Str, root: Node, p: Path, ov: Collapsed)
      returns (r: Result<Str, StoiError>)
      requires ValidPath(root, p)
      modifies store
      ensures var spec := RuleOutput(rule, options, content, root, p, ov, |old(store.references)|);
        (r.Err? <==> spec.Err?)
        && (spec.Err? ==> r.error == spec.error && store.references == old(store.references))
        && (spec.Ok? ==>
              r.value == spec.value.text
              && store.references == old(store.references)
                   + (if spec.value.reference.Some? then [spec.value.reference.value] else []))
    {
      var n := At(root, p);
      match rule.replacement
      case BuiltinReplacement(kind) =>
        r := CommonMarkRules.Replace(kind, options, content, root, p, ov, store);
      case KeepReplacement =>
        var html := HtmlSerialize.SerializeNode(n);
        r := Ok(html);
      case RemoveReplacement => r := Ok([]);
      case BlankReplacement => r := Ok(if Utilities.IsBlock(n) then "\n\n" else []);
      case DefaultReplacement =>
        r := Ok(if Utilities.IsBlock(n) then "\n\n" + content + "\n\n" else content);
      case CustomReplacement(f) => r := Ok(f(content, options, root, p));
    }
  }

  // ----- defineCommonMarkRules -----

  /** The rule `defineCommonMarkRules` hands to `addRule` for a built-in kind; only the reference link has an append. */
  function BuiltinRule(kind: CommonMarkRules.RuleKind): Rule
  {
    Rule(BuiltinFilter(kind), BuiltinReplacement(kind), if kind.ReferenceLink? then ReferenceAppend else NoAppend, [])
  }

  /** A built-in rule as `addRule` stores it: under its key. */
  function Keyed(kind: CommonMarkRules.RuleKind): Rule
  {
    BuiltinRule(kind).(key := CommonMarkRules.RuleKey(kind))
  }

  /** The heading rules after the loop has run up to level `n`: `<hn>` first. */
  function HeadingRules(n: nat): seq<Rule>
  {
    if n == 0 then [] else [Keyed(CommonMarkRules.Heading(n))] + HeadingRules(n - 1)
  }

  /** The paragraph and line-break rules as they stand after both are added. */
  function LeadingRules(): seq<Rule>
  {
    [Keyed(CommonMarkRules.LineBreak), Keyed(CommonMarkRules.Paragraph)]
  }

  /** The block rules from the blockquote to the horizontal rule, as they stand after being added. */
  function BlockRules(): seq<Rule>
  {
    [Keyed(CommonMarkRules.HorizontalRule), Keyed(CommonMarkRules.FencedCodeBlock),
      Keyed(CommonMarkRules.IndentedCodeBlock), Keyed(CommonMarkRules.ListItem), Keyed(CommonMarkRules.List),
      Keyed(CommonMarkRules.Blockquote)]
  }

  /** The rules from the inline link to the image, as they stand after being added. */
  function InlineRules(): seq<Rule>
  {
    [Keyed(CommonMarkRules.Image), Keyed(CommonMarkRules.Code), Keyed(CommonMarkRules.Strong),
      Keyed(CommonMarkRules.Emphasis), Keyed(CommonMarkRules.ReferenceLink), Keyed(CommonMarkRules.InlineLink)]
  }

  /** The main list `defineCommonMarkRules` leaves on an empty one: the last rule added comes first. */
  function CommonMarkRuleList(): seq<Rule>
  {
    InlineRules() + BlockRules() + HeadingRules(6) + LeadingRules()
  }

  /** The rule lists of a fresh `Rules` object once the built-in rules are defined. */
  function CommonMarkRuleSet(): RuleSet
  {
    RuleSet(CommonMarkRuleList(), [], [])
  }

  /** Some rule of the list has the reference store's flush as its append. */
  predicate HasReferenceAppend(rules: seq<Rule>)
  {
    exists i :: 0 <= i < |rules| && rules[i].append.ReferenceAppend?
  }

  /** The built-in rules include the reference-link rule, whose append flushes the store. */
  lemma CommonMarkFlushes()
    ensures HasReferenceAppend(CommonMarkRuleSet().rulesArray)
  {
    assert InlineRules()[4].append.ReferenceAppend?;
    assert CommonMarkRuleList()[4] == InlineRules()[4];
  }

  /** `addRule` for one built-in kind. */
  method AddBuiltin(rules: Rules, kind: CommonMarkRules.RuleKind)
    modifies rules
    ensures rules.rulesArray == [Keyed(kind)] + old(rules.rulesArray)
    ensures rules.keepRules == old(rules.keepRules) && rules.removeRules == old(rules.removeRules)
  {
    rules.AddRule(CommonMarkRules.RuleKey(kind), BuiltinRule(kind));
  }

  /**
   * `defineCommonMarkRules`: adds the built-in rules in source order, so the
   * last one added is tried first.
   */
  method DefineCommonMarkRules(rules: Rules)
    modifies rules
    ensures rules.rulesArray == CommonMarkRuleList() + old(rules.rulesArray)
    ensures rules.keepRules == old(rules.keepRules) && rules.removeRules == old(rules.removeRules)
  {
    ghost var base := rules.rulesArray;
    DefineLeading(rules);
    DefineHeadings(rules);
    DefineBlocks(rules);
    DefineInline(rules);
    Regrouped(InlineRules(), BlockRules(), HeadingRules(6), LeadingRules(), base);
  }

  lemma Regrouped(a: seq<Rule>, b: seq<Rule>, c: seq<Rule>, d: seq<Rule>, e: seq<Rule>)
    ensures a + (b + (c + (d + e))) == (a + b + c + d) + e
  {
  }

  method DefineLeading(rules: Rules)
    modifies rules
    ensures rules.rulesArray == LeadingRules() + old(rules.rulesArray)
    ensures rules.keepRules == old(rules.keepRules) && rules.removeRules == old(rules.removeRules)
  {
    AddBuiltin(rules, CommonMarkRules.Paragraph);
    AddBuiltin(rules, CommonMarkRules.LineBreak);
  }

  /** The heading loop over levels 1 to 6. */
  method DefineHeadings(rules: Rules)
    modifies rules
    ensures rules.rulesArray == HeadingRules(6) + old(rules.rulesArray)
    ensures rules.keepRules == old(rules.keepRules) && rules.removeRules == old(rules.removeRules)
  {
    for i := 1 to 7
      invariant rules.rulesArray == HeadingRules(i - 1) + old(rules.rulesArray)
      invariant rules.keepRules == old(rules.keepRules) && rules.removeRules == old(rules.removeRules)
    {
      AddBuiltin(rules, CommonMarkRules.Heading(i));
    }
  }

  method DefineBlocks(rules: Rules)
    modifies rules
    ensures rules.rulesArray == BlockRules() + old(rules.rulesArray)
    ensures rules.keepRules == old(rules.keepRules) && rules.removeRules == old(rules.removeRules)
  {
    AddBuiltin(rules, CommonMarkRules.Blockquote);
    AddBuiltin(rules, CommonMarkRules.List);
    AddBuiltin(rules, CommonMarkRules.ListItem);
    AddBuiltin(rules, CommonMarkRules.IndentedCodeBlock);
    AddBuiltin(rules, CommonMarkRules.FencedCodeBlock);
    AddBuiltin(rules, CommonMarkRules.HorizontalRule);
  }

  method DefineInline(rules: Rules)
    modifies rules
    ensures rules.rulesArray == InlineRules() + old(rules.rulesArray)
    ensures rules.keepRules == old(rules.keepRules) && rules.removeRules == old(rules.removeRules)
  {
    AddBuiltin(rules, CommonMarkRules.InlineLink);
    AddBuiltin(rules, CommonMarkRules.ReferenceLink);
    AddBuiltin(rules, CommonMarkRules.Emphasis);
    AddBuiltin(rules, CommonMarkRules.Strong);
    AddBuiltin(rules, CommonMarkRules.Code);
    AddBuiltin(rules, CommonMarkRules.Image);
  }

  lemma NormalizedAppend(tags: seq<Str>, t: Str)
    ensures Normalized(tags + [t]) == Normalized(tags) + [Lower(t)]
  {
  }
}
