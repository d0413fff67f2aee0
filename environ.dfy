/**
 * The start-up step of `main` that copies the imported board variables
 * into the process environment, `os.environ`, one assignment at a time.
 */
module Environ {
  import opened Text
  import opened EnvImport

  /** The process environment: a mutable string-to-string mapping. */
  class Environment {
    var vars: map<string, string>

    constructor (initial: map<string, string>)
      ensures vars == initial
    {
      vars := initial;
    }

    /** `os.environ[k] = v`. */
    method Set(k: string, v: string)
      modifies this
      ensures vars == old(vars)[k := v]
    {
      vars := vars[k := v];
    }
  }

  /** The environment after every imported variable has been assigned:
      each imported key has its imported value, every other key keeps its
      old value, and no key disappears. */
  function Merged(base: map<string, string>, imported: map<string, string>): (r: map<string, string>)
    ensures r.Keys == base.Keys + imported.Keys
    ensures forall k :: k in imported ==> r[k] == imported[k]
    ensures forall k :: k in base && k !in imported ==> r[k] == base[k]
  {
    base + imported
  }

  /** `for k, v in imported.items(): os.environ[k] = v`. The keys are
      visited in an unspecified order; the keys are distinct, so the order
      does not matter. */
  method AssignAll(env: Environment, imported: map<string, string>)
    modifies env
    ensures env.vars == Merged(old(env.vars), imported)
  {
    var todo := imported.Keys;
    while todo != {}
      invariant todo <= imported.Keys
      invariant env.vars.Keys == old(env.vars).Keys + (imported.Keys - todo)
      invariant forall k :: k in imported.Keys - todo ==> env.vars[k] == imported[k]
      invariant forall k :: k in old(env.vars) && k !in imported.Keys - todo ==> env.vars[k] == old(env.vars)[k]
      decreases todo
    {
      var k :| k in todo;
      env.Set(k, imported[k]);
      todo := todo - {k};
    }
    assert imported.Keys - todo == imported.Keys;
  }

  /** `main`'s import step (lines 158-159 of jtop): read the variables of
      the board-identity file `SOURCE_FILE`, if it is among the regular
      files `files`, with the default pattern, and put them into the
      environment. A line without `=` raises before any assignment; the
      index of that line is returned and the environment is left as it
      was. */
  method LoadJetsonVariables(env: Environment, files: set<string>, lines: seq<string>)
    returns (badLine: Option<nat>)
    modifies env
    ensures ImportOsVariables(SOURCE_FILE in files, lines, DEFAULT_PATTERN).MissingSeparator? ==>
              && badLine == Some(ImportOsVariables(SOURCE_FILE in files, lines, DEFAULT_PATTERN).badLine)
              && env.vars == old(env.vars)
    ensures ImportOsVariables(SOURCE_FILE in files, lines, DEFAULT_PATTERN).Ok? ==>
              && badLine == None
              && env.vars == Merged(old(env.vars), ImportOsVariables(SOURCE_FILE in files, lines, DEFAULT_PATTERN).value)
  {
    match ImportOsVariables(SOURCE_FILE in files, lines, DEFAULT_PATTERN)
    case MissingSeparator(i) =>
      badLine := Some(i);
    case Ok(imported) =>
      AssignAll(env, imported);
      badLine := None;
  }
}
