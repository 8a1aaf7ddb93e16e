/**
 * Provisioning-script bookkeeping of `zutils/src/script.rs`: the parse of
 * `/etc/os-release`, the execution context (extra environment variables,
 * extra `PATH` entries) and how it is applied to a command, the `Command`
 * flags, dry-run execution, and the marked-block rewrite of `~/.bashrc`.
 * Files, the process environment and the command runner are parameters.
 */
module Script {
  import opened Wrappers
  import opened Text

  // ---------------------------------------------------------------------
  // /etc/os-release
  // ---------------------------------------------------------------------

  /**
   * One `KEY=VALUE` line: the text before its first `=` and everything after
   * it; a line without `=` gives nothing.
   */
  function ParseLine(l: string): (r: Option<(string, string)>)
    ensures r.None? <==> '=' !in l
    ensures r.Some? ==> l == r.value.0 + "=" + r.value.1 && '=' !in r.value.0
  {
    match Find(l, "=")
    case None =>
      assert forall j: nat :: j < |l| ==> OccursAt(l, "=", j) == (l[j] == '=');
      None
    case Some(i) =>
      assert forall j: nat :: j < i ==> OccursAt(l, "=", j) == (l[j] == '=');
      assert l == l[..i] + "=" + l[i + 1..];
      Some((l[..i], l[i + 1..]))
  }

  /** A key without `=` and any value read back from their `KEY=VALUE` line. */
  lemma {:induction false} ParseLineFormat(key: string, value: string)
    requires '=' !in key
    ensures ParseLine(key + "=" + value) == Some((key, value))
  {
    var l := key + "=" + value;
    assert l[..|key|] == key && l[|key| + 1..] == value;
    forall j: nat | j < |key| ensures !OccursAt(l, "=", j) {
      assert l[j] == key[j];
    }
    FindIs(l, "=", |key|);
  }

  /** The parameters read from the lines; a later line with the same key wins. */
  function OsParams(lines: seq<string>): map<string, string> {
    if |lines| == 0 then map[] else Record(OsParams(lines[..|lines| - 1]), lines[|lines| - 1])
  }

  /** The parameters after one more line. */
  function Record(m: map<string, string>, l: string): map<string, string> {
    var p := ParseLine(l);
    if p.Some? then m[p.value.0 := p.value.1] else m
  }

  /** `Context::get_os_params` on the text of the file: one entry per `KEY=VALUE` line. */
  method GetOsParams(contents: string) returns (result: map<string, string>)
    ensures result == OsParams(Split(contents, '\n'))
  {
    var lines := Split(contents, '\n');
    result := map[];
    for n := 0 to |lines|
      invariant result == OsParams(lines[..n])
    {
      assert lines[..n + 1][..n] == lines[..n];
      var parsed := ParseLine(lines[n]);
      if parsed.Some? {
        result := result[parsed.value.0 := parsed.value.1];
      }
      assert result == Record(OsParams(lines[..n]), lines[n]);
    }
    assert lines[..|lines|] == lines;
  }

  /** Some line of `lines` defines `k`. */
  ghost predicate Defines(lines: seq<string>, i: int, k: string) {
    0 <= i < |lines| && ParseLine(lines[i]).Some? && ParseLine(lines[i]).value.0 == k
  }

  /** A key is present exactly when some line defines it. */
  lemma {:induction false} OsParamsKeys(lines: seq<string>, k: string)
    ensures k in OsParams(lines) <==> exists i :: Defines(lines, i, k)
  {
    if k in OsParams(lines) {
      var i := OsParamsLastWins(lines, k);
    }
    if exists i :: Defines(lines, i, k) {
      var i :| Defines(lines, i, k);
      DefinedPresent(lines, i, k);
    }
  }

  /** A key some line defines is present. */
  lemma {:induction false} DefinedPresent(lines: seq<string>, i: int, k: string)
    requires Defines(lines, i, k)
    ensures k in OsParams(lines)
  {
    var init := lines[..|lines| - 1];
    assert OsParams(lines) == Record(OsParams(init), lines[|lines| - 1]);
    if i < |lines| - 1 {
      assert lines[i] == init[i];
      DefinedPresent(init, i, k);
    }
  }

  /** The value of a present key comes from the last line defining it, the `i`-th. */
  lemma {:induction false} OsParamsLastWins(lines: seq<string>, k: string) returns (i: nat)
    requires k in OsParams(lines)
    ensures Defines(lines, i, k) && ParseLine(lines[i]).value.1 == OsParams(lines)[k]
    ensures forall j :: i < j < |lines| ==> !Defines(lines, j, k)
  {
    var init := lines[..|lines| - 1];
    assert OsParams(lines) == Record(OsParams(init), lines[|lines| - 1]);
    if Defines(lines, |lines| - 1, k) {
      i := |lines| - 1;
    } else {
      i := OsParamsLastWins(init, k);
      DefinesInit(lines, init, i, k);
    }
  }

  /** The last line does not define `k`: what holds of the earlier lines holds of all. */
  lemma {:induction false} DefinesInit(lines: seq<string>, init: seq<string>, i: nat, k: string)
    requires |lines| > 0 && init == lines[..|lines| - 1] && !Defines(lines, |lines| - 1, k)
    requires Defines(init, i, k) && forall j :: i < j < |init| ==> !Defines(init, j, k)
    ensures Defines(lines, i, k) && lines[i] == init[i]
    ensures forall j :: i < j < |lines| ==> !Defines(lines, j, k)
  {
    forall j | i < j < |lines| ensures !Defines(lines, j, k) {
      if j < |init| {
        assert !Defines(init, j, k);
        assert lines[j] == init[j];
      }
    }
  }

  /** Lines without `=` leave the parameters as they are. */
  lemma {:induction false} OsParamsSkips(lines: seq<string>, l: string)
    requires '=' !in l
    ensures OsParams(lines + [l]) == OsParams(lines)
  {
    assert (lines + [l])[..|lines|] == lines;
  }

  // ---------------------------------------------------------------------
  // Commands
  // ---------------------------------------------------------------------

  /** What running a command reports; how the runner fills it is not modelled. */
  datatype CommandOutput = Fake(success: bool) | Ran(success: bool, stdout: string, stderr: string)

  /** A command to run: its program, arguments and environment, and two tags. */
  class Command {
    var mandatory: bool
    var imperative: bool
    var program: string
    var args: seq<string>
    var env: map<string, string>

    /** `Command::new`: no program yet, optional and interrogative. */
    constructor New()
      ensures !mandatory && !imperative
      ensures program == "" && args == [] && env == map[]
    {
      mandatory := false;
      imperative := false;
      program := "";
      args := [];
      env := map[];
    }

    /** `Command::as_root`: `sudo` with the arguments as given, mandatory and imperative. */
    constructor AsRoot(args: seq<string>)
      ensures mandatory && imperative
      ensures program == "sudo" && this.args == args && env == map[]
    {
      mandatory := true;
      imperative := true;
      program := "sudo";
      this.args := args;
      env := map[];
    }

    /** `Command::build`: the given program and arguments, mandatory and imperative. */
    constructor Build(program: string, args: seq<string>)
      ensures mandatory && imperative
      ensures this.program == program && this.args == args && env == map[]
    {
      mandatory := true;
      imperative := true;
      this.program := program;
      this.args := args;
      env := map[];
    }

    method Mandatory()
      modifies this
      ensures mandatory && imperative == old(imperative)
      ensures program == old(program) && args == old(args) && env == old(env)
    {
      mandatory := true;
    }

    method Optional()
      modifies this
      ensures !mandatory && imperative == old(imperative)
      ensures program == old(program) && args == old(args) && env == old(env)
    {
      mandatory := false;
    }

    method Imperative()
      modifies this
      ensures imperative && mandatory == old(mandatory)
      ensures program == old(program) && args == old(args) && env == old(env)
    {
      imperative := true;
    }

    method Interrogative()
      modifies this
      ensures !imperative && mandatory == old(mandatory)
      ensures program == old(program) && args == old(args) && env == old(env)
    {
      imperative := false;
    }

    /** `CommandBuilder::env_var`: set one variable of the command's environment. */
    method EnvVar(name: string, val: string)
      modifies this
      ensures env == old(env)[name := val]
      ensures mandatory == old(mandatory) && imperative == old(imperative)
      ensures program == old(program) && args == old(args)
    {
      env := env[name := val];
    }
  }

  // ---------------------------------------------------------------------
  // The execution context
  // ---------------------------------------------------------------------

  const PathVar: string := "PATH"

  /** How `modify_context` fails when `PATH` cannot be read from the environment. */
  const PathNotPresent: string := "environment variable not found"

  class Context {
    var reallyExecute: bool
    var vars: map<string, string>
    var appendPaths: seq<string>
    var osParams: map<string, string>
    var arch: string

    /** `Context::new`, given the parsed os-release parameters and the architecture. */
    constructor (reallyExecute: bool, osParams: map<string, string>, arch: string)
      ensures this.reallyExecute == reallyExecute && this.osParams == osParams && this.arch == arch
      ensures vars == map[] && appendPaths == []
    {
      this.reallyExecute := reallyExecute;
      this.osParams := osParams;
      this.arch := arch;
      vars := map[];
      appendPaths := [];
    }

    /** `add_to_path`: one more directory at the end of the extra `PATH` entries. */
    method AddToPath(pathStr: string)
      modifies this
      ensures appendPaths == old(appendPaths) + [pathStr]
      ensures vars == old(vars) && reallyExecute == old(reallyExecute)
      ensures osParams == old(osParams) && arch == old(arch)
    {
      appendPaths := appendPaths + [pathStr];
    }

    /** `add_to_env`: set one extra variable, replacing only an earlier value of it. */
    method AddToEnv(name: string, val: string)
      modifies this
      ensures vars == old(vars)[name := val]
      ensures appendPaths == old(appendPaths) && reallyExecute == old(reallyExecute)
      ensures osParams == old(osParams) && arch == old(arch)
    {
      vars := vars[name := val];
    }

    /** The `PATH` a command gets: the inherited one, then every extra entry in order. */
    function ComposedPath(inherited: string): string
      reads this
    {
      Join([inherited] + appendPaths, ":")
    }

    /**
     * `modify_context`: set the command's `PATH` to the composed one, then
     * every extra variable over it. `inherited` is the process's `PATH`, if
     * it has one that can be read.
     */
    method ModifyContext(cmd: Command, inherited: Option<string>) returns (r: Result<(), string>)
      modifies cmd
      ensures r.Err? <==> inherited.None?
      ensures r.Err? ==> r.error == PathNotPresent && cmd.env == old(cmd.env)
      ensures r.Ok? ==> cmd.env == old(cmd.env)[PathVar := ComposedPath(inherited.value)] + vars
      ensures cmd.mandatory == old(cmd.mandatory) && cmd.imperative == old(cmd.imperative)
      ensures cmd.program == old(cmd.program) && cmd.args == old(cmd.args)
    {
      if inherited.None? {
        return Err(PathNotPresent);
      }
      var myPath := [inherited.value];
      for i := 0 to |appendPaths|
        invariant myPath == [inherited.value] + appendPaths[..i]
      {
        myPath := myPath + [appendPaths[i]];
      }
      assert appendPaths[..|appendPaths|] == appendPaths;
      cmd.EnvVar(PathVar, Join(myPath, ":"));
      ghost var base := cmd.env;
      var rest := vars.Keys;
      ghost var done: set<string> := {};
      OverlayNone(base, vars);
      while rest != {}
        invariant rest + done == vars.Keys
        invariant cmd.env == Overlay(base, vars, done)
        invariant cmd.mandatory == old(cmd.mandatory) && cmd.imperative == old(cmd.imperative)
        invariant cmd.program == old(cmd.program) && cmd.args == old(cmd.args)
        decreases |rest|
      {
        var k :| k in rest;
        OverlayStep(base, vars, done, k);
        cmd.EnvVar(k, vars[k]);
        rest := rest - {k};
        done := done + {k};
      }
      OverlayAll(base, vars, done);
      return Ok(());
    }
  }

  /** `base` with the variables of `vars` named in `done` set over it. */
  function Overlay(base: map<string, string>, vars: map<string, string>, done: set<string>): map<string, string> {
    base + map k | k in done && k in vars :: vars[k]
  }

  lemma {:induction false} OverlayNone(base: map<string, string>, vars: map<string, string>)
    ensures Overlay(base, vars, {}) == base
  {
  }

  lemma {:induction false} OverlayStep(base: map<string, string>, vars: map<string, string>, done: set<string>, k: string)
    requires k in vars
    ensures Overlay(base, vars, done)[k := vars[k]] == Overlay(base, vars, done + {k})
  {
  }

  lemma {:induction false} OverlayAll(base: map<string, string>, vars: map<string, string>, done: set<string>)
    requires done == vars.Keys
    ensures Overlay(base, vars, done) == base + vars
  {
  }

  /** The composed `PATH` splits back into the inherited one and the extra entries, when none holds a `:`. */
  lemma {:induction false} ComposedPathSplits(inherited: string, appendPaths: seq<string>)
    requires ':' !in inherited && forall i :: 0 <= i < |appendPaths| ==> ':' !in appendPaths[i]
    ensures Split(Join([inherited] + appendPaths, ":"), ':') == [inherited] + appendPaths
  {
    var parts := [inherited] + appendPaths;
    assert forall i :: 0 <= i < |parts| ==> ':' !in parts[i] by {
      forall i | 0 <= i < |parts| ensures ':' !in parts[i] {
        if i > 0 {
          assert parts[i] == appendPaths[i - 1];
        }
      }
    }
    SplitJoin(parts, ':');
  }

  /**
   * After `modify_context` an extra variable always wins, `PATH` included;
   * otherwise `PATH` is the composed one and every other variable is as before.
   */
  lemma {:induction false} ModifiedEnv(env: map<string, string>, vars: map<string, string>, path: string, k: string)
    ensures var e := env[PathVar := path] + vars;
            && (k in e <==> k in env || k in vars || k == PathVar)
            && (k in vars ==> e[k] == vars[k])
            && (k !in vars && k == PathVar ==> e[k] == path)
            && (k !in vars && k != PathVar && k in env ==> e[k] == env[k])
  {
  }

  /**
   * `Command::execute`: in a dry run nothing runs, the command's description
   * (or the error describing it) decides, and the output is the fake
   * success; otherwise the outcome is that of the run.
   */
  method Execute(ctx: Context, describe: Result<string, string>, run: Result<CommandOutput, string>)
    returns (r: Result<CommandOutput, string>)
    ensures ctx.reallyExecute ==> r == run
    ensures !ctx.reallyExecute && describe.Ok? ==> r == Ok(Fake(true))
    ensures !ctx.reallyExecute && describe.Err? ==> r == Err(describe.error)
  {
    if ctx.reallyExecute {
      return run;
    }
    if describe.Err? {
      return Err(describe.error);
    }
    return Ok(Fake(true));
  }

  // ---------------------------------------------------------------------
  // append_bashrc
  // ---------------------------------------------------------------------

  const BeginPrefix: string := "# zws_auto begin "
  const EndPrefix: string := "# zws_auto end "

  /** The line opening the block of `id`. */
  function BeginMarker(id: string): string { BeginPrefix + id }

  /** The line closing the block of `id`. */
  function EndMarker(id: string): string { EndPrefix + id }

  /** The block's body: every line followed by a newline. */
  function Block(what: seq<string>): string {
    if |what| == 0 then "" else Block(what[..|what| - 1]) + what[|what| - 1] + "\n"
  }

  /**
   * The new `.bashrc` text. When the first begin marker comes before the
   * first end marker, the text between the character after the begin marker
   * and the end marker is replaced by the block, and `None` is the panic of
   * `replace_range` when that character lies beyond the end marker. Otherwise
   * a newline, the begin marker, the block and the end marker are appended.
   */
  function Rewrite(contents: string, id: string, what: seq<string>): (r: Option<string>)
    ensures r.None? <==> && Find(contents, BeginMarker(id)).Some? && Find(contents, EndMarker(id)).Some?
                         && Find(contents, BeginMarker(id)).value < Find(contents, EndMarker(id)).value
                         && Find(contents, EndMarker(id)).value < Find(contents, BeginMarker(id)).value + |BeginMarker(id)| + 1
    ensures r.Some? ==> exists k: nat :: OccursAt(r.value, Block(what), k)
  {
    var b := BeginMarker(id);
    var e := EndMarker(id);
    var start := Find(contents, b);
    var end := Find(contents, e);
    if start.Some? && end.Some? && end.value > start.value then
      var endOfStart := start.value + |b| + 1;
      if endOfStart <= end.value then
        OccursBetween(contents[..endOfStart], Block(what), contents[end.value..]);
        Some(contents[..endOfStart] + Block(what) + contents[end.value..])
      else None
    else
      OccursBetween(contents + "\n" + b + "\n", Block(what), e + "\n");
      assert contents + "\n" + b + "\n" + Block(what) + (e + "\n") == contents + "\n" + b + "\n" + Block(what) + e + "\n";
      Some(contents + "\n" + b + "\n" + Block(what) + e + "\n")
  }

  /** `append_bashrc` on the text of the file: build the block line by line, then merge it. */
  method AppendBashrc(contents: string, id: string, what: seq<string>) returns (r: Option<string>)
    ensures r == Rewrite(contents, id, what)
  {
    var idBegin := BeginMarker(id);
    var idEnd := EndMarker(id);
    var toInsert := "";
    for i := 0 to |what|
      invariant toInsert == Block(what[..i])
    {
      assert what[..i + 1][..i] == what[..i];
      toInsert := toInsert + what[i];
      toInsert := toInsert + "\n";
    }
    assert what[..|what|] == what;
    var startVal := Find(contents, idBegin);
    if startVal.Some? {
      var endVal := Find(contents, idEnd);
      if endVal.Some? && endVal.value > startVal.value {
        var endOfStart := startVal.value + |idBegin| + 1;
        if endOfStart > endVal.value {
          return None;
        }
        return Some(contents[..endOfStart] + toInsert + contents[endVal.value..]);
      }
    }
    return Some(contents + "\n" + idBegin + "\n" + toInsert + idEnd + "\n");
  }

  /** `p` occurs nowhere in `s`. */
  ghost predicate Free(s: string, p: string) {
    forall j: nat :: !OccursAt(s, p, j)
  }

  /** In `r` the line `b` starts at `s`, then come `t` and `e`, `b` and `e` each first of its kind. */
  ghost predicate Placed(r: string, b: string, e: string, t: string, s: nat) {
    && s + |b| + 1 + |t| <= |r|
    && Find(r, b) == Some(s)
    && Find(r, e) == Some(s + |b| + 1 + |t|)
    && r[s + |b|] == '\n'
    && r[s + |b| + 1..s + |b| + 1 + |t|] == t
  }

  /** The block of `id` in `r` starts at `s`: the begin marker and a newline, `t`, then the end marker. */
  ghost predicate BlockAt(r: string, id: string, t: string, s: nat) {
    Placed(r, BeginMarker(id), EndMarker(id), t, s)
  }

  /** The texts `Rewrite` treats well: no marker at all, or a block in place. */
  ghost predicate Managed(c: string, id: string) {
    || (Find(c, BeginMarker(id)).None? && Find(c, EndMarker(id)).None?)
    || (exists s: nat, t: string :: BlockAt(c, id, t, s))
  }

  /** The block ends in a newline and, if no line holds a newline-free `p`, holds no `p`. */
  lemma {:induction false} BlockFree(what: seq<string>, p: string)
    requires '\n' !in p && |p| > 0
    requires forall i :: 0 <= i < |what| ==> Free(what[i], p)
    ensures Free(Block(what), p)
    ensures |Block(what)| > 0 ==> Block(what)[|Block(what)| - 1] == '\n'
  {
    if |what| > 0 {
      var w := what[..|what| - 1];
      var l := what[|what| - 1];
      BlockFree(w, p);
      var t := Block(what);
      var bw := Block(w);
      assert t == bw + l + "\n";
      forall j: nat ensures !OccursAt(t, p, j) {
        if j + |p| <= |bw| {
          OccursSlice(t, p, 0, |bw|, j);
          assert t[0..|bw|] == bw;
        } else if j < |bw| {
          NoOccurrenceAcross(t, p, j, |bw| - 1, '\n');
        } else if j + |p| <= |bw| + |l| {
          OccursSlice(t, p, |bw|, |bw| + |l|, j);
          assert t[|bw|..|bw| + |l|] == l;
          assert !OccursAt(l, p, j - |bw|);
        } else if j < |t| {
          NoOccurrenceAcross(t, p, j, |t| - 1, '\n');
        }
      }
    }
  }

  /** The end marker does not occur inside the begin marker of the same id. */
  lemma {:induction false} EndNotInBegin(id: string, k: nat)
    ensures !OccursAt(BeginMarker(id), EndMarker(id), k)
  {
    var b := BeginMarker(id);
    var e := EndMarker(id);
    if k + |e| <= |b| {
      var w := b[k..k + |e|];
      assert k == 0 ==> w[11] != e[11];
      assert k > 0 ==> w[0] != e[0];
    }
  }

  /** Neither marker of a newline-free id holds a newline. */
  lemma {:induction false} MarkersOneLine(id: string)
    requires '\n' !in id
    ensures '\n' !in BeginMarker(id) && '\n' !in EndMarker(id)
  {
  }

  /** In the appended text a newline-free `b` that `c` lacks first occurs right after the newline. */
  lemma {:induction false} FirstAfterNewline(c: string, b: string, t: string, e: string)
    requires '\n' !in b && Free(c, b)
    ensures Find(c + "\n" + b + "\n" + t + e + "\n", b) == Some(|c| + 1)
  {
    var r := c + "\n" + b + "\n" + t + e + "\n";
    assert r[0..|c|] == c && r[|c|] == '\n' && r[|c| + 1..|c| + 1 + |b|] == b;
    forall j: nat | j < |c| + 1 ensures !OccursAt(r, b, j) {
      if j + |b| <= |c| {
        OccursSlice(r, b, 0, |c|, j);
      } else {
        NoOccurrenceAcross(r, b, j, |c|, '\n');
      }
    }
    FindIs(r, b, |c| + 1);
  }

  /** In `pre + t + e + rest` no `e` starts before `e` itself, when `pre` ends in a newline and `t` holds no `e`. */
  lemma {:induction false} FirstAfterBlock(pre: string, t: string, e: string, rest: string)
    requires '\n' !in e && |pre| > 0 && pre[|pre| - 1] == '\n'
    requires Free(t, e) && (|t| > 0 ==> t[|t| - 1] == '\n')
    ensures forall j: nat :: |pre| <= j < |pre| + |t| ==> !OccursAt(pre + t + e + rest, e, j)
    ensures OccursAt(pre + t + e + rest, e, |pre| + |t|)
  {
    var r := pre + t + e + rest;
    var q := |pre|;
    var f := q + |t|;
    assert r[q..f] == t && r[f..f + |e|] == e;
    forall j: nat | q <= j < f ensures !OccursAt(r, e, j) {
      if j + |e| <= f {
        OccursSlice(r, e, q, f, j);
      } else {
        assert t[|t| - 1] == r[f - 1];
        NoOccurrenceAcross(r, e, j, f - 1, '\n');
      }
    }
  }

  /** What the append branch writes, and where its block sits, for a text without markers. */
  lemma {:induction false} AppendedBlock(c: string, b: string, t: string, e: string)
    requires '\n' !in b && '\n' !in e && Free(c, b) && Free(c, e)
    requires Free(t, e) && (|t| > 0 ==> t[|t| - 1] == '\n')
    requires forall k: nat :: !OccursAt(b, e, k)
    ensures var r := c + "\n" + b + "\n" + t + e + "\n";
            && Find(r, b) == Some(|c| + 1)
            && Find(r, e) == Some(|c| + 1 + |b| + 1 + |t|)
  {
    var pre := c + "\n" + b + "\n";
    FirstAfterNewline(c, b, t, e);
    FirstAfterBlock(pre, t, e, "\n");
    NoneInLines(c, b, e, t);
    FindIs(pre + t + e + "\n", e, |pre| + |t|);
  }

  /** A newline-free `e` absent from the lines `c` and `b` does not start before `t` in the appended text. */
  lemma {:induction false} NoneInLines(c: string, b: string, e: string, t: string)
    requires '\n' !in e && Free(c, e) && forall k: nat :: !OccursAt(b, e, k)
    ensures forall j: nat :: j < |c| + 1 + |b| + 1 ==> !OccursAt(c + "\n" + b + "\n" + t + e + "\n", e, j)
  {
    var r := c + "\n" + b + "\n" + t + e + "\n";
    var s := |c| + 1;
    assert r[0..|c|] == c && r[|c|] == '\n' && r[s..s + |b|] == b && r[s + |b|] == '\n';
    forall j: nat | j < s + |b| + 1 ensures !OccursAt(r, e, j) {
      if j + |e| <= |c| {
        OccursSlice(r, e, 0, |c|, j);
      } else if j <= |c| {
        NoOccurrenceAcross(r, e, j, |c|, '\n');
      } else if j + |e| <= s + |b| {
        OccursSlice(r, e, s, s + |b|, j);
      } else {
        NoOccurrenceAcross(r, e, j, s + |b|, '\n');
      }
    }
  }

  /** The pieces of the appended text. */
  lemma {:induction false} AppendedShape(c: string, b: string, t: string, e: string)
    ensures var r := c + "\n" + b + "\n" + t + e + "\n";
            && r[..|c|] == c && r[|c| + 1 + |b|] == '\n'
            && r[|c| + 1 + |b| + 1..|c| + 1 + |b| + 1 + |t|] == t
  {
    var r := c + "\n" + b + "\n" + t + e + "\n";
    var q := |c| + 1 + |b| + 1;
    assert r == (c + "\n" + b + "\n") + t + (e + "\n");
    assert r[q..q + |t|] == t;
  }

  /**
   * Appending to a text without markers leaves it as a prefix and puts the
   * block right after it, its markers the first in the new text.
   */
  lemma {:induction false} RewriteAppendLocates(c: string, id: string, what: seq<string>) returns (s: nat)
    requires '\n' !in id && forall i :: 0 <= i < |what| ==> Free(what[i], EndMarker(id))
    requires Find(c, BeginMarker(id)).None? && Find(c, EndMarker(id)).None?
    ensures Rewrite(c, id, what).Some?
    ensures s == |c| + 1 && Rewrite(c, id, what).value[..|c|] == c
    ensures BlockAt(Rewrite(c, id, what).value, id, Block(what), s)
  {
    var b := BeginMarker(id);
    var e := EndMarker(id);
    var t := Block(what);
    MarkersOneLine(id);
    BlockFree(what, e);
    forall k: nat ensures !OccursAt(b, e, k) {
      EndNotInBegin(id, k);
    }
    AppendedPlaced(c, b, t, e);
    RewriteAppends(c, id, what);
    s := |c| + 1;
  }

  /** The appended text starts with the old one and has the block placed after it. */
  lemma {:induction false} AppendedPlaced(c: string, b: string, t: string, e: string)
    requires '\n' !in b && '\n' !in e && Free(c, b) && Free(c, e)
    requires Free(t, e) && (|t| > 0 ==> t[|t| - 1] == '\n')
    requires forall k: nat :: !OccursAt(b, e, k)
    ensures var r := c + "\n" + b + "\n" + t + e + "\n";
            r[..|c|] == c && Placed(r, b, e, t, |c| + 1)
  {
    AppendedBlock(c, b, t, e);
    AppendedShape(c, b, t, e);
  }

  /** Without markers the block is appended. */
  lemma {:induction false} RewriteAppends(c: string, id: string, what: seq<string>)
    requires Find(c, BeginMarker(id)).None? && Find(c, EndMarker(id)).None?
    ensures Rewrite(c, id, what) == Some(c + "\n" + BeginMarker(id) + "\n" + Block(what) + EndMarker(id) + "\n")
  {
  }

  /** Replacing text after the begin marker keeps the first begin marker where it was. */
  lemma {:induction false} ReplacedBegin(c: string, b: string, s: nat, a: nat, t: string, e0: nat)
    requires Find(c, b) == Some(s) && s + |b| <= a <= e0 <= |c|
    ensures Find(c[..a] + t + c[e0..], b) == Some(s)
  {
    var r := c[..a] + t + c[e0..];
    assert r[0..a] == c[0..a];
    OccursSlice(r, b, 0, a, s);
    OccursSlice(c, b, 0, a, s);
    forall j: nat | j < s ensures !OccursAt(r, b, j) {
      OccursSlice(r, b, 0, a, j);
      OccursSlice(c, b, 0, a, j);
    }
    FindIs(r, b, s);
  }

  /**
   * After the text between the newline ending at `a` and the end marker at
   * `e0` is replaced by `t`, the first end marker follows `t`.
   */
  lemma {:induction false} ReplacedEnd(c: string, e: string, a: nat, e0: nat, t: string)
    requires '\n' !in e && Find(c, e) == Some(e0)
    requires 0 < a <= e0 && c[a - 1] == '\n'
    requires Free(t, e) && (|t| > 0 ==> t[|t| - 1] == '\n')
    ensures Find(c[..a] + t + c[e0..], e) == Some(a + |t|)
  {
    var pre := c[..a];
    var rest := c[e0 + |e|..];
    var r := pre + t + c[e0..];
    assert c[e0..] == e + rest;
    assert r == pre + t + e + rest;
    FirstAfterBlock(pre, t, e, rest);
    NoneBeforeCut(c, e, a, e0, t);
    FindIs(r, e, a + |t|);
  }

  /** A newline-free `e` that first occurs in `c` at `e0` occurs nowhere in the kept line-ending head `c[..a]`. */
  lemma {:induction false} NoneBeforeCut(c: string, e: string, a: nat, e0: nat, t: string)
    requires '\n' !in e && Find(c, e) == Some(e0)
    requires 0 < a <= e0 && c[a - 1] == '\n'
    ensures forall j: nat :: j < a ==> !OccursAt(c[..a] + t + c[e0..], e, j)
  {
    var r := c[..a] + t + c[e0..];
    assert r[0..a] == c[0..a];
    forall j: nat | j < a ensures !OccursAt(r, e, j) {
      if j + |e| <= a {
        OccursSlice(r, e, 0, a, j);
        OccursSlice(c, e, 0, a, j);
      } else {
        NoOccurrenceAcross(r, e, j, a - 1, '\n');
      }
    }
  }

  /** The pieces of the rewritten text. */
  lemma {:induction false} ReplacedShape(c: string, a: nat, e0: nat, t: string)
    requires 0 < a <= e0 <= |c|
    ensures var r := c[..a] + t + c[e0..];
            && r[a - 1] == c[a - 1] && r[a..a + |t|] == t && |r| == a + |t| + |c| - e0
  {
    var r := c[..a] + t + c[e0..];
    assert r[a..a + |t|] == t;
  }

  /** Replacing the text between a placed `b` line and `e` by `t` leaves `t` placed between them. */
  lemma {:induction false} ReplacedAll(c: string, b: string, e: string, s: nat, t0: string, t: string, r: string)
    requires '\n' !in e && Free(t, e) && (|t| > 0 ==> t[|t| - 1] == '\n')
    requires Placed(c, b, e, t0, s)
    requires r == c[..s + |b| + 1] + t + c[s + |b| + 1 + |t0|..]
    ensures Placed(r, b, e, t, s)
  {
    var a := s + |b| + 1;
    var e0 := a + |t0|;
    ReplacedBegin(c, b, s, a, t, e0);
    ReplacedEnd(c, e, a, e0, t);
    ReplacedShape(c, a, e0, t);
  }

  /** With its block in place, the text between the begin line and the end marker is replaced. */
  lemma {:induction false} RewriteReplaces(c: string, id: string, what: seq<string>, s: nat, t0: string)
    requires BlockAt(c, id, t0, s)
    ensures var a := s + |BeginMarker(id)| + 1;
            Rewrite(c, id, what) == Some(c[..a] + Block(what) + c[a + |t0|..])
  {
  }

  /**
   * Rewriting a text with its block in place keeps everything up to the
   * newline after the begin marker and everything from the end marker on,
   * puts the new block between them, and leaves the block in place.
   */
  lemma {:induction false} RewriteReplaceLocates(c: string, id: string, what: seq<string>, s: nat, t0: string)
    requires '\n' !in id && forall i :: 0 <= i < |what| ==> Free(what[i], EndMarker(id))
    requires BlockAt(c, id, t0, s)
    ensures var a := s + |BeginMarker(id)| + 1;
            var r := c[..a] + Block(what) + c[a + |t0|..];
            Rewrite(c, id, what) == Some(r) && BlockAt(r, id, Block(what), s)
  {
    RewriteReplaces(c, id, what, s, t0);
    var a := s + |BeginMarker(id)| + 1;
    ReplacedBlockAt(c, id, what, s, t0, c[..a] + Block(what) + c[a + |t0|..]);
  }

  /** The rewritten text of `RewriteReplaceLocates` has its block in place. */
  lemma {:induction false} ReplacedBlockAt(c: string, id: string, what: seq<string>, s: nat, t0: string, r: string)
    requires '\n' !in id && forall i :: 0 <= i < |what| ==> Free(what[i], EndMarker(id))
    requires BlockAt(c, id, t0, s)
    requires r == c[..s + |BeginMarker(id)| + 1] + Block(what) + c[s + |BeginMarker(id)| + 1 + |t0|..]
    ensures BlockAt(r, id, Block(what), s)
  {
    MarkersOneLine(id);
    BlockFree(what, EndMarker(id));
    ReplacedAll(c, BeginMarker(id), EndMarker(id), s, t0, Block(what), r);
  }



  /**
   * On a text with no marker or with its block in place, `append_bashrc`
   * never panics and leaves the new block in place.
   */
  lemma {:induction false} RewriteManaged(c: string, id: string, what: seq<string>) returns (s: nat)
    requires '\n' !in id && forall i :: 0 <= i < |what| ==> Free(what[i], EndMarker(id))
    requires Managed(c, id)
    ensures Rewrite(c, id, what).Some?
    ensures BlockAt(Rewrite(c, id, what).value, id, Block(what), s)
    ensures Managed(Rewrite(c, id, what).value, id)
  {
    if Find(c, BeginMarker(id)).None? && Find(c, EndMarker(id)).None? {
      s := RewriteAppendLocates(c, id, what);
    } else {
      var s0: nat, t0: string :| BlockAt(c, id, t0, s0);
      RewriteReplaceLocates(c, id, what, s0, t0);
      s := s0;
    }
  }

  /** Running `append_bashrc` twice with the same id and lines changes nothing the second time. */
  lemma {:induction false} RewriteIdempotent(c: string, id: string, what: seq<string>)
    requires '\n' !in id && forall i :: 0 <= i < |what| ==> Free(what[i], EndMarker(id))
    requires Managed(c, id)
    ensures Rewrite(c, id, what).Some?
    ensures Rewrite(Rewrite(c, id, what).value, id, what) == Rewrite(c, id, what)
  {
    var s := RewriteManaged(c, id, what);
    RewritePlacedSame(Rewrite(c, id, what).value, id, what, s);
  }

  /**
   * Outside `Managed` texts the rewrite is not idempotent: a text holding only
   * a stray end marker gets a fresh block appended on every call, because the
   * first end marker then never follows the first begin marker.
   */
  lemma {:induction false} RewriteStrayEndKeepsAppending(id: string, what: seq<string>)
    ensures Rewrite(EndMarker(id), id, what).Some?
    ensures var once := Rewrite(EndMarker(id), id, what).value;
            && Rewrite(once, id, what).Some?
            && |Rewrite(once, id, what).value| > |once|
            && Rewrite(once, id, what) != Rewrite(EndMarker(id), id, what)
  {
    var c, b, e := EndMarker(id), BeginMarker(id), EndMarker(id);
    assert Find(c, b).None?;
    var once := c + "\n" + b + "\n" + Block(what) + e + "\n";
    assert Rewrite(c, id, what) == Some(once);
    assert once[..|e|] == e;
    FindIs(once, e, 0);
    RewriteEndFirstAppends(once, id, what);
  }

  /** An end marker at the very start never follows the begin marker, so the block is appended. */
  lemma {:induction false} RewriteEndFirstAppends(c: string, id: string, what: seq<string>)
    requires Find(c, EndMarker(id)) == Some(0)
    ensures Rewrite(c, id, what) == Some(c + "\n" + BeginMarker(id) + "\n" + Block(what) + EndMarker(id) + "\n")
  {
  }

  /** A text already holding this block at its place is rewritten to itself. */
  lemma {:induction false} RewritePlacedSame(r: string, id: string, what: seq<string>, s: nat)
    requires '\n' !in id && forall i :: 0 <= i < |what| ==> Free(what[i], EndMarker(id))
    requires BlockAt(r, id, Block(what), s)
    ensures Rewrite(r, id, what) == Some(r)
  {
    var t := Block(what);
    var a := s + |BeginMarker(id)| + 1;
    RewriteReplaces(r, id, what, s, t);
    assert a + |t| <= |r| && r[a..a + |t|] == t;
    SpliceSame(r, a, t);
  }

  /** Putting back the slice a text already holds gives the text. */
  lemma {:induction false} SpliceSame(r: string, a: nat, t: string)
    requires a + |t| <= |r| && r[a..a + |t|] == t
    ensures r[..a] + t + r[a + |t|..] == r
  {
    assert r == r[..a] + r[a..a + |t|] + r[a + |t|..];
  }
}
