/** The Spring wrapper (`me.bazhenov.groovysh.spring.GroovyShellServiceBean`):
    how it turns a comma-separated property into the default script list
    and, once its properties are set, merges the application context's
    beans, the context itself and the user's bindings before starting the
    service. */
module GroovyShellServiceBean {
  import opened JavaPrims
  import opened ShellObjects
  import opened JavaStrings
  import GroovyShellCommand

  /** One of the context's bean definitions: its name and whether it is
      abstract, in which case `getBean` throws `BeanIsAbstractException`. */
  datatype BeanDefinition = BeanDefinition(name: string, isAbstract: bool)

  /** The bean's state together with the parts of the service it sets:
      `context` is `None` until Spring injects one, `bindings` is the
      service's (possibly `null`) binding map, `started` whether
      `service.start()` was called. */
  datatype ServiceBean = ServiceBean(
    launchAtStart: bool,
    publishContextBeans: bool,
    context: Option<seq<BeanDefinition>>,
    bindings: Option<Bindings>,
    defaultScripts: seq<string>,
    started: bool)

  /** The field defaults: launch and publish both on, nothing injected. */
  const Fresh: ServiceBean := ServiceBean(true, true, None, None, [], false)

  /** A setter's outcome: the new state, or the `NullPointerException` of a
      `null` argument. */
  datatype Outcome = Done(bean: ServiceBean) | NullPointer

  /** `setDefaultScriptNames`: a blank string leaves the list alone; any
      other is split on commas, pieces kept untrimmed. */
  function SetDefaultScriptNames(b: ServiceBean, names: Option<string>): (r: Outcome)
    ensures names.None? <==> r.NullPointer?
    ensures r.Done? ==> r.bean.(defaultScripts := b.defaultScripts) == b
    ensures r.Done? && (forall k :: 0 <= k < |names.value| ==> IsTrimmed(names.value[k])) ==> r.bean == b
    ensures r.Done? && !(forall k :: 0 <= k < |names.value| ==> IsTrimmed(names.value[k])) ==>
              r.bean.defaultScripts == Split(names.value, ',')
    ensures r.Done? && r.bean.defaultScripts != b.defaultScripts ==>
              forall i :: 0 <= i < |r.bean.defaultScripts| ==> ',' !in r.bean.defaultScripts[i]
  {
    match names
    case None => NullPointer
    case Some(s) =>
      TrimEmptyIffBlank(s);
      if Trim(s) == [] then Done(b)
      else Done(b.(defaultScripts := Split(s, ',')))
  }

  /** Script names written out with commas come back as the list: the
      property round-trips any non-blank list of comma-free names whose last
      name is non-empty. */
  lemma ScriptNamesRoundTrip(b: ServiceBean, names: seq<string>)
    requires |names| >= 1 && names[|names| - 1] != ""
    requires forall i :: 0 <= i < |names| ==> NoSeparator(names[i], ',')
    requires exists i, k :: 0 <= i < |names| && 0 <= k < |names[i]| && !IsTrimmed(names[i][k])
    ensures SetDefaultScriptNames(b, Some(Join(names, ','))) == Done(b.(defaultScripts := names))
  {
    var s := Join(names, ',');
    SplitJoin(names, ',');
    var i, k :| 0 <= i < |names| && 0 <= k < |names[i]| && !IsTrimmed(names[i][k]);
    JoinHoldsPieces(names, ',', i);
    var at := JoinOffset(names, ',', i) + k;
    assert s[at] == names[i][k];
    TrimEmptyIffBlank(s);
  }

  /** Trailing commas set the same list as the string without them: the
      empty names they delimit are dropped, not kept as empty script names. */
  lemma {:induction false} TrailingCommasIgnored(b: ServiceBean, names: seq<string>)
    requires |names| >= 1 && names[|names| - 1] != ""
    requires forall i :: 0 <= i < |names| ==> NoSeparator(names[i], ',')
    requires exists i, k :: 0 <= i < |names| && 0 <= k < |names[i]| && !IsTrimmed(names[i][k])
    ensures SetDefaultScriptNames(b, Some(Join(names, ',') + ",,")) == Done(b.(defaultScripts := names))
  {
    var s := Join(names, ',') + ",,";
    SplitDropsTrailingSeparators(names, ',');
    var i, k :| 0 <= i < |names| && 0 <= k < |names[i]| && !IsTrimmed(names[i][k]);
    JoinHoldsPieces(names, ',', i);
    var at := JoinOffset(names, ',', i) + k;
    assert s[at] == names[i][k];
    TrimEmptyIffBlank(s);
  }

  /** Where the `i`-th piece starts in the joined string. */
  function JoinOffset(ps: seq<string>, sep: char, i: nat): (o: nat)
    requires i < |ps|
    ensures o + |ps[i]| <= |Join(ps, sep)|
    decreases |ps|
  {
    if i == |ps| - 1 then (if |ps| == 1 then 0 else |Join(ps[..|ps| - 1], sep)| + 1)
    else JoinOffset(ps[..|ps| - 1], sep, i)
  }

  /** The joined string holds each piece at its offset. */
  lemma {:induction false} JoinHoldsPieces(ps: seq<string>, sep: char, i: nat)
    requires i < |ps|
    ensures forall k :: 0 <= k < |ps[i]| ==> Join(ps, sep)[JoinOffset(ps, sep, i) + k] == ps[i][k]
    decreases |ps|
  {
    if i < |ps| - 1 {
      JoinHoldsPieces(ps[..|ps| - 1], sep, i);
    }
  }

  /** A bean the context's names publish: no `#` in its name and not
      abstract. */
  predicate Eligible(d: BeanDefinition) {
    '#' !in d.name && !d.isAbstract
  }

  predicate Published(defs: seq<BeanDefinition>, name: string) {
    exists j :: 0 <= j < |defs| && defs[j].name == name && Eligible(defs[j])
  }

  /** `publishContextBeans`: each eligible definition, in order, is put under
      its name; abstract and unnamed (`#`) beans are skipped. */
  function PublishContextBeans(m: Bindings, defs: seq<BeanDefinition>): (r: Bindings)
    ensures forall name :: name in r <==> name in m || Published(defs, name)
    ensures forall name :: name in r && Published(defs, name) ==> r[name] == BeanInstance(name)
    ensures forall name :: name in r && !Published(defs, name) ==> r[name] == m[name]
    decreases |defs|
  {
    if |defs| == 0 then m
    else
      var d := defs[0];
      var next := if Eligible(d) then m[d.name := BeanInstance(d.name)] else m;
      var r := PublishContextBeans(next, defs[1..]);
      assert forall name :: Published(defs, name) <==> (Eligible(d) && d.name == name) || Published(defs[1..], name) by {
        forall name
          ensures Published(defs, name) <==> (Eligible(d) && d.name == name) || Published(defs[1..], name)
        {
          if Published(defs, name) {
            var j :| 0 <= j < |defs| && defs[j].name == name && Eligible(defs[j]);
            if j > 0 {
              assert defs[1..][j - 1] == defs[j];
            }
          }
          if Published(defs[1..], name) {
            var j :| 0 <= j < |defs[1..]| && defs[1..][j].name == name && Eligible(defs[1..][j]);
            assert defs[j + 1] == defs[1..][j];
          }
        }
      }
      r
  }

  /** `afterPropertiesSet`: with `launchAtStart` off nothing happens; without
      a context the service starts with its bindings as they were; with one,
      the bindings become the published beans, then `ctx`, then the user's
      own entries, later ones replacing earlier ones. */
  function AfterPropertiesSet(b: ServiceBean): (r: ServiceBean)
    ensures !b.launchAtStart ==> r == b
    ensures b.launchAtStart ==> r.started && r.(bindings := b.bindings, started := b.started) == b
    ensures b.launchAtStart && b.context.None? ==> r.bindings == b.bindings
    ensures b.launchAtStart && b.context.Some? ==> r.bindings == Some(ContextBindings(b))
  {
    if !b.launchAtStart then b
    else if b.context.None? then b.(started := true)
    else b.(bindings := Some(ContextBindings(b)), started := true)
  }

  /** The binding map built when a context is present. */
  function ContextBindings(b: ServiceBean): (m: Bindings)
    requires b.context.Some?
    ensures b.bindings.Some? ==> forall k :: k in b.bindings.value ==> k in m && m[k] == b.bindings.value[k]
    ensures "ctx" in m && (b.bindings.None? || "ctx" !in b.bindings.value ==> m["ctx"] == AppContext)
    ensures forall k :: k in m ==>
              || k == "ctx"
              || (b.bindings.Some? && k in b.bindings.value)
              || (b.publishContextBeans && Published(b.context.value, k))
    ensures forall k :: k in m && k != "ctx" && (b.bindings.None? || k !in b.bindings.value) ==>
              b.publishContextBeans && Published(b.context.value, k) && m[k] == BeanInstance(k)
    ensures b.publishContextBeans ==> forall k :: Published(b.context.value, k) ==> k in m
  {
    var published := if b.publishContextBeans then PublishContextBeans(map[], b.context.value) else map[];
    var withContext := published["ctx" := AppContext];
    if b.bindings.Some? then withContext + b.bindings.value else withContext
  }

  /** Starting from the defaults with a context injected, the shell the
      service opens sees `ctx`, every eligible bean not shadowed by the
      command's own names, and its own `out`, `err` and `activeSessions`. */
  lemma ShellSeesContext(defs: seq<BeanDefinition>, name: string)
    requires Published(defs, name) && name !in GroovyShellCommand.Reserved && name != "ctx"
    ensures var r := AfterPropertiesSet(Fresh.(context := Some(defs)));
            var shell := GroovyShellCommand.CreateBinding(r.bindings);
            && r.started
            && shell["ctx"] == AppContext
            && shell[name] == BeanInstance(name)
            && shell["out"] == OutStream
  {
  }
}
