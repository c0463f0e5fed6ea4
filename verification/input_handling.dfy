/**
 * The key-binding table: configured key names are resolved to key codes when
 * the bindings are loaded, and a key-down event is dispatched through the
 * resulting table to a registered action.
 *
 * The table of key constants (looked up by name in the source) and the
 * registered action callables are parameters: `constants` maps a key name to
 * its code and `actions` maps an action name to the callable it invokes.
 */
module InputHandling {

  /** Identity of a registered action callable. */
  type ActionId = nat

  /** One configured binding: a key-constant name and an action name. */
  type Binding = (string, string)

  /** pygame's event type code for a key press. */
  const KeyDownKind: int := 768

  /** An input event: its type code and, for key events, the key code. */
  datatype Event = Event(kind: int, key: int)

  /** What dispatching an event does: call an action, nothing, or warn that the action is missing. */
  datatype Outcome = Invoke(action: ActionId) | Ignore | Warn(actionName: string)

  /** Binding `b`'s key name is a known constant with code `code`. */
  predicate ResolvesTo(b: Binding, constants: map<string, int>, code: int)
  {
    b.0 in constants && constants[b.0] == code
  }

  /**
   * The converted table after processing `bindings` in order: each binding
   * whose name is known sets its code to its action name, overwriting any
   * earlier binding for the same code; unknown names are skipped.
   */
  function Converted(bindings: seq<Binding>, constants: map<string, int>): (r: map<int, string>)
    ensures forall code :: code in r ==> exists i :: 0 <= i < |bindings| && ResolvesTo(bindings[i], constants, code)
  {
    if bindings == [] then map[]
    else
      var last := bindings[|bindings| - 1];
      var prefix := Converted(bindings[..|bindings| - 1], constants);
      if last.0 in constants then prefix[constants[last.0] := last.1] else prefix
  }

  /** The names that resolve to no key constant, in configuration order. */
  function Unresolved(bindings: seq<Binding>, constants: map<string, int>): (r: seq<string>)
    ensures forall n :: n in r ==> n !in constants && exists i :: 0 <= i < |bindings| && bindings[i].0 == n
    ensures forall i :: 0 <= i < |bindings| && bindings[i].0 !in constants ==> bindings[i].0 in r
  {
    if bindings == [] then []
    else
      var last := bindings[|bindings| - 1];
      var prefix := Unresolved(bindings[..|bindings| - 1], constants);
      if last.0 in constants then prefix else prefix + [last.0]
  }

  /**
   * `load_key_bindings` after the file has been read: returns the converted
   * table and, in place of the printed warnings, the skipped names.
   */
  method LoadKeyBindings(bindings: seq<Binding>, constants: map<string, int>)
    returns (converted: map<int, string>, skipped: seq<string>)
    ensures converted == Converted(bindings, constants)
    ensures skipped == Unresolved(bindings, constants)
  {
    converted := map[];
    skipped := [];
    for i := 0 to |bindings|
      invariant converted == Converted(bindings[..i], constants)
      invariant skipped == Unresolved(bindings[..i], constants)
    {
      var (keyStr, action) := bindings[i];
      assert bindings[..i + 1][..i] == bindings[..i];
      if keyStr in constants {
        converted := converted[constants[keyStr] := action];
      } else {
        skipped := skipped + [keyStr];
      }
    }
    assert bindings[..|bindings|] == bindings;
  }

  /**
   * Every binding in the converted table comes from the last configured name
   * that resolves to its code, and carries that name's action unchanged.
   */
  lemma {:induction false} ConvertedLastWins(bindings: seq<Binding>, constants: map<string, int>, i: nat)
    requires i < |bindings| && bindings[i].0 in constants
    requires forall j :: i < j < |bindings| ==> !ResolvesTo(bindings[j], constants, constants[bindings[i].0])
    ensures constants[bindings[i].0] in Converted(bindings, constants)
    ensures Converted(bindings, constants)[constants[bindings[i].0]] == bindings[i].1
  {
    var n := |bindings|;
    if i < n - 1 {
      var prefix := bindings[..n - 1];
      assert prefix[i] == bindings[i];
      forall j | i < j < |prefix| ensures !ResolvesTo(prefix[j], constants, constants[bindings[i].0]) {
        assert prefix[j] == bindings[j];
      }
      ConvertedLastWins(prefix, constants, i);
    }
  }

  /** A code is bound exactly when some configured name resolves to it. */
  lemma {:induction false} ConvertedDomain(bindings: seq<Binding>, constants: map<string, int>, code: int)
    ensures code in Converted(bindings, constants) <==>
            exists i :: 0 <= i < |bindings| && ResolvesTo(bindings[i], constants, code)
  {
    if bindings != [] {
      var n := |bindings|;
      var prefix := bindings[..n - 1];
      ConvertedDomain(prefix, constants, code);
      if exists i :: 0 <= i < n && ResolvesTo(bindings[i], constants, code) {
        var i :| 0 <= i < n && ResolvesTo(bindings[i], constants, code);
        if i < n - 1 {
          assert prefix[i] == bindings[i];
        }
      }
    }
  }

  /**
   * `run`: a key-down whose key is bound to a non-empty action name invokes
   * the registered callable, or warns when none is registered; every other
   * event does nothing.
   */
  function Dispatch(event: Event, keyBindings: map<int, string>, actions: map<string, ActionId>): (r: Outcome)
    ensures event.kind != KeyDownKind ==> r == Ignore
    ensures r.Invoke? <==>
            event.kind == KeyDownKind && event.key in keyBindings && keyBindings[event.key] != ""
            && keyBindings[event.key] in actions
    ensures r.Invoke? ==> r.action == actions[keyBindings[event.key]]
    ensures r.Warn? <==>
            event.kind == KeyDownKind && event.key in keyBindings && keyBindings[event.key] != ""
            && keyBindings[event.key] !in actions
    ensures r.Warn? ==> r.actionName == keyBindings[event.key]
  {
    if event.kind != KeyDownKind then Ignore
    else if event.key !in keyBindings || keyBindings[event.key] == "" then Ignore
    else
      var actionName := keyBindings[event.key];
      if actionName in actions then Invoke(actions[actionName]) else Warn(actionName)
  }

  /**
   * Loading then dispatching: a key press whose key code was configured, with
   * binding `i` the last one resolving to it, invokes the callable registered
   * for binding `i`'s action, if the action name is non-empty and registered.
   */
  lemma LoadedDispatch(bindings: seq<Binding>, constants: map<string, int>, actions: map<string, ActionId>, i: nat)
    requires i < |bindings| && bindings[i].0 in constants
    requires forall j :: i < j < |bindings| ==> !ResolvesTo(bindings[j], constants, constants[bindings[i].0])
    requires bindings[i].1 != "" && bindings[i].1 in actions
    ensures Dispatch(Event(KeyDownKind, constants[bindings[i].0]), Converted(bindings, constants), actions)
            == Invoke(actions[bindings[i].1])
  {
    ConvertedLastWins(bindings, constants, i);
  }

  /** A key press for a code no configured name resolves to invokes nothing. */
  lemma UnboundKeyIgnored(bindings: seq<Binding>, constants: map<string, int>, actions: map<string, ActionId>, key: int)
    requires forall i :: 0 <= i < |bindings| ==> !ResolvesTo(bindings[i], constants, key)
    ensures Dispatch(Event(KeyDownKind, key), Converted(bindings, constants), actions) == Ignore
  {
    ConvertedDomain(bindings, constants, key);
  }
}
