/**
 * The palette templates and the text the editor gives a new node: its `data-id`
 * attribute `node-N` and its default title such as `Policy N`, both built from
 * the same counter value N.
 */
module Templates {
  import opened Wrappers
  import opened Siblings
  import opened Forest
  import opened Decimal

  /** The `templateConfig` key of each kind. */
  function TemplateName(k: Kind): string {
    match k
    case Policy => "policy"
    case Script => "script"
    case Registry => "registry"
    case Application => "application"
    case Group => "group"
  }

  /**
   * The kind a palette template name stands for. Every other name finds no own
   * entry of `templateConfig` and creates nothing.
   */
  function TemplateKind(name: string): (k: Option<Kind>)
    ensures k.Some? ==> TemplateName(k.value) == name
    ensures forall kind :: TemplateName(kind) == name ==> k == Some(kind)
  {
    if name == "policy" then Some(Policy)
    else if name == "script" then Some(Script)
    else if name == "registry" then Some(Registry)
    else if name == "application" then Some(Application)
    else if name == "group" then Some(Group)
    else None
  }

  /** The capitalised kind name that starts a default title and the "added" message. */
  function KindTitle(k: Kind): string {
    match k
    case Policy => "Policy"
    case Script => "Script"
    case Registry => "Registry"
    case Application => "Application"
    case Group => "Group"
  }

  /** The title `config.label()` gives a node created while the counter reads `n`. */
  function DefaultLabel(k: Kind, n: nat): string {
    KindTitle(k) + " " + FromNat(n)
  }

  /** The `data-id` attribute of the node numbered `n`: `node-` and then the digits of `n`. */
  function IdText(n: nat): (s: string)
    ensures |s| > 5 && s[..5] == "node-" && AllDigits(s[5..]) && ToNat(s[5..]) == n
  {
    ToNatFromNat(n);
    var s := "node-" + FromNat(n);
    assert s[5..] == FromNat(n);
    s
  }

  /**
   * A default title starts with the kind's name and a space, and its trailing
   * number is the number of the node's id.
   */
  lemma LabelNumberIsId(k: Kind, n: nat)
    ensures var head := KindTitle(k) + " ";
      |DefaultLabel(k, n)| > |head| && DefaultLabel(k, n)[..|head|] == head
    ensures TrailingNumber(DefaultLabel(k, n)) == TrailingNumber(IdText(n)) == n
  {
    TrailingNumberAfter(KindTitle(k) + " ", n);
    TrailingNumberAfter("node-", n);
  }

  /** Distinct counter values give distinct `data-id` attributes. */
  lemma IdTextInjective(m: nat, n: nat)
    ensures IdText(m) == IdText(n) ==> m == n
  {
    if IdText(m) == IdText(n) {
      assert IdText(m)[5..] == IdText(n)[5..];
    }
  }

  /**
   * `document.querySelector('[data-id="s"]')`: the live node whose `data-id` is
   * exactly `s`, if any.
   */
  function ResolveId(nodes: map<Id, Node>, s: string): (r: Option<Id>)
    ensures r.Some? ==> r.value >= 0 && r.value in nodes && IdText(r.value) == s
  {
    if |s| > 5 && s[..5] == "node-" && AllDigits(s[5..]) then
      var n := ToNat(s[5..]);
      if n in nodes && IdText(n) == s then Some(n) else None
    else None
  }

  /** Every live node is found by its own `data-id`. */
  lemma ResolveIdFinds(nodes: map<Id, Node>, x: nat)
    requires x in nodes
    ensures ResolveId(nodes, IdText(x)) == Some(x)
  {
    var s := IdText(x);
    assert s[..5] == "node-" && s[5..] == FromNat(x);
    ToNatFromNat(x);
  }
}
