/** The manifest generator: how a command's parameters are read off its
    signature, compacted into `args` and `opts` strings, and assembled into
    the manifest. Python values are modelled by `PyValue`; JSON objects whose
    keys are optional become `Option` fields, and dictionaries keyed by
    action name become sequences of entries in insertion order. */
module Manifest {
  import opened Wrappers
  import opened Text

  /** The Python values a parameter default can take; `Ellipsis` is `...`,
      the marker of a required parameter. */
  datatype PyValue = Ellipsis | PyNone | PyBool(b: bool) | PyInt(i: int) | PyStr(s: string)

  /** `str(v)`, as an f-string renders it. */
  function Show(v: PyValue): string {
    match v
    case Ellipsis => "Ellipsis"
    case PyNone => "None"
    case PyBool(b) => if b then "True" else "False"
    case PyInt(i) => if i < 0 then "-" + NatToString(-i) else NatToString(i)
    case PyStr(s) => s
  }

  // ------------------------------------------------------------ introspection

  /** What `inspect` finds as a parameter's default: nothing, a Typer
      argument, a Typer option (with its declared names, if any), or
      anything else. */
  datatype Declared =
    | NoDefault
    | ArgumentDecl(help: Option<string>, default: PyValue)
    | OptionDecl(help: Option<string>, default: PyValue, decls: seq<string>)
    | OtherDecl

  /** One parameter as introspection records it; `default` is `PyNone` when
      no default is recorded. */
  datatype Param = Param(name: string, kind: string, required: bool, description: string, default: PyValue)

  predicate LongDecl(d: string) {
    |d| >= 2 && d[..2] == "--"
  }

  /** The CLI name of an option: the first declared name starting with "--",
      without the dashes, else the Python parameter name. */
  function OptionName(paramName: string, decls: seq<string>): (r: string)
    ensures (forall i :: 0 <= i < |decls| ==> !LongDecl(decls[i])) ==> r == paramName
    ensures (exists i :: 0 <= i < |decls| && LongDecl(decls[i])) ==>
      exists i :: 0 <= i < |decls| && LongDecl(decls[i]) && r == decls[i][2..]
        && forall j :: 0 <= j < i ==> !LongDecl(decls[j])
  {
    if |decls| == 0 then paramName
    else if LongDecl(decls[0]) then decls[0][2..]
    else
      var r := OptionName(paramName, decls[1..]);
      assert forall j :: 1 <= j < |decls| ==> decls[j] == decls[1..][j - 1];
      r
  }

  /** A default worth recording: not `...`, not None and not False. */
  predicate Meaningful(v: PyValue) {
    v != Ellipsis && v != PyNone && v != PyBool(false)
  }

  /** `introspect_typer_parameter`. */
  function Introspect(paramName: string, d: Declared): (r: Option<Param>)
    ensures r.Some? <==> d.ArgumentDecl? || d.OptionDecl?
    ensures r.Some? ==> (r.value.required <==> d.default == Ellipsis)
    ensures r.Some? ==> r.value.description == d.help.UnwrapOr("")
    ensures d.ArgumentDecl? ==>
      (r.Some? && r.value.kind == "argument" && r.value.name == paramName && r.value.default == PyNone)
    ensures d.OptionDecl? ==> r.Some? && r.value.kind == "option" && r.value.name == OptionName(paramName, d.decls)
    ensures d.OptionDecl? ==> (Meaningful(d.default) <==> r.value.default != PyNone)
    ensures d.OptionDecl? && Meaningful(d.default) ==> r.value.default == d.default
  {
    match d
    case ArgumentDecl(help, default) =>
      Some(Param(paramName, "argument", default == Ellipsis, help.UnwrapOr(""), PyNone))
    case OptionDecl(help, default, decls) =>
      Some(Param(OptionName(paramName, decls), "option", default == Ellipsis, help.UnwrapOr(""),
                 if Meaningful(default) then default else PyNone))
    case _ => None
  }

  /** The parameter loop of `introspect_cli_app`: `verbose` and `debug` are
      skipped, and so is anything introspection does not recognise. */
  function CommandParams(sig: seq<(string, Declared)>): (r: seq<Param>)
    ensures |r| <= |sig|
    ensures forall p :: p in r ==> exists i ::
      (0 <= i < |sig| && sig[i].0 !in {"verbose", "debug"} && Introspect(sig[i].0, sig[i].1) == Some(p))
    ensures forall i :: 0 <= i < |sig| && sig[i].0 !in {"verbose", "debug"} && Introspect(sig[i].0, sig[i].1).Some? ==>
              Introspect(sig[i].0, sig[i].1).value in r
  {
    if |sig| == 0 then []
    else
      var rest := CommandParams(sig[1..]);
      assert forall i :: 1 <= i < |sig| ==> sig[i] == sig[1..][i - 1];
      var here := if sig[0].0 in {"verbose", "debug"} then None else Introspect(sig[0].0, sig[0].1);
      (if here.Some? then [here.value] else []) + rest
  }

  /** The parameters keep signature order: the parameters of two runs of a
      signature are those of the first followed by those of the second. */
  lemma {:induction false} CommandParamsAppend(a: seq<(string, Declared)>, b: seq<(string, Declared)>)
    ensures CommandParams(a + b) == CommandParams(a) + CommandParams(b)
    decreases |a|
  {
    if |a| > 0 {
      assert (a + b)[0] == a[0] && (a + b)[1..] == a[1..] + b;
      CommandParamsAppend(a[1..], b);
    } else {
      assert a + b == b;
    }
  }

  // ------------------------------------------------------------ compacting

  /** "name: description [default]", with each part only when present. */
  function Describe(head: string, desc: string, default: PyValue): (r: string)
    ensures default != PyNone ==> r == (if |desc| > 0 then head + ": " + desc else head) + " [" + Show(default) + "]"
    ensures default == PyNone ==> r == (if |desc| > 0 then head + ": " + desc else head)
  {
    if |desc| > 0 && default != PyNone then head + ": " + desc + " [" + Show(default) + "]"
    else if |desc| > 0 then head + ": " + desc
    else if default != PyNone then head + " [" + Show(default) + "]"
    else head
  }

  function ArgString(p: Param): (r: string)
    ensures !p.required ==> r == "[" + Describe(p.name, p.description, p.default) + "]"
    ensures p.required ==> r == Describe(p.name, p.description, p.default)
  {
    var s := Describe(p.name, p.description, p.default);
    if p.required then s else "[" + s + "]"
  }

  function OptString(p: Param): (r: string)
    ensures r == Describe("--" + p.name, p.description, p.default)
    ensures |r| >= 2 + |p.name| && r[..2 + |p.name|] == "--" + p.name
  {
    var r := Describe("--" + p.name, p.description, p.default);
    assert r == ("--" + p.name) + r[2 + |p.name|..];
    r
  }

  predicate IsArgument(p: Param) {
    p.kind == "argument"
  }

  datatype Compacted = Compacted(args: seq<string>, opts: seq<string>)

  function ArgHead(p: Param): (r: seq<string>)
    ensures |r| <= 1 && (|r| == 1 <==> IsArgument(p)) && (|r| == 1 ==> r[0] == ArgString(p))
  {
    if IsArgument(p) then [ArgString(p)] else []
  }

  function OptHead(p: Param): (r: seq<string>)
    ensures |r| <= 1 && (|r| == 1 <==> !IsArgument(p)) && (|r| == 1 ==> r[0] == OptString(p))
  {
    if IsArgument(p) then [] else [OptString(p)]
  }

  /** The `args` list: each argument parameter's string, in order. */
  function ArgsOf(ps: seq<Param>): (r: seq<string>)
    ensures |r| <= |ps|
    ensures forall s :: s in r <==> exists i :: 0 <= i < |ps| && IsArgument(ps[i]) && s == ArgString(ps[i])
  {
    if |ps| == 0 then []
    else
      assert forall i :: 1 <= i < |ps| ==> ps[i] == ps[1..][i - 1];
      ArgHead(ps[0]) + ArgsOf(ps[1..])
  }

  /** The `opts` list: every other parameter's string, in order. */
  function OptsOf(ps: seq<Param>): (r: seq<string>)
    ensures |r| <= |ps|
    ensures forall s :: s in r <==> exists i :: 0 <= i < |ps| && !IsArgument(ps[i]) && s == OptString(ps[i])
  {
    if |ps| == 0 then []
    else
      assert forall i :: 1 <= i < |ps| ==> ps[i] == ps[1..][i - 1];
      OptHead(ps[0]) + OptsOf(ps[1..])
  }

  /** `compact_parameters`: arguments go to `args`, every other kind to
      `opts`; nothing is lost. */
  function CompactParameters(ps: seq<Param>): (r: Compacted)
    ensures |r.args| + |r.opts| == |ps|
    ensures |r.args| == 0 <==> forall i :: 0 <= i < |ps| ==> !IsArgument(ps[i])
    ensures |r.opts| == 0 <==> forall i :: 0 <= i < |ps| ==> IsArgument(ps[i])
    ensures forall s :: s in r.args <==> exists i :: 0 <= i < |ps| && IsArgument(ps[i]) && s == ArgString(ps[i])
    ensures forall s :: s in r.opts <==> exists i :: 0 <= i < |ps| && !IsArgument(ps[i]) && s == OptString(ps[i])
  {
    SplitCounts(ps);
    Compacted(ArgsOf(ps), OptsOf(ps))
  }

  lemma {:induction false} SplitCounts(ps: seq<Param>)
    ensures |ArgsOf(ps)| + |OptsOf(ps)| == |ps|
    ensures |ArgsOf(ps)| == 0 <==> forall i :: 0 <= i < |ps| ==> !IsArgument(ps[i])
    ensures |OptsOf(ps)| == 0 <==> forall i :: 0 <= i < |ps| ==> IsArgument(ps[i])
  {
    if |ps| > 0 {
      var rest := ps[1..];
      SplitCounts(rest);
      assert ArgsOf(ps) == ArgHead(ps[0]) + ArgsOf(rest);
      assert OptsOf(ps) == OptHead(ps[0]) + OptsOf(rest);
      KindsOfHeadAndRest(ps, rest);
    }
  }

  lemma KindsOfHeadAndRest(ps: seq<Param>, rest: seq<Param>)
    requires |ps| > 0 && rest == ps[1..]
    ensures (forall i :: 0 <= i < |ps| ==> IsArgument(ps[i]))
      <==> IsArgument(ps[0]) && forall i :: 0 <= i < |rest| ==> IsArgument(rest[i])
    ensures (forall i :: 0 <= i < |ps| ==> !IsArgument(ps[i]))
      <==> !IsArgument(ps[0]) && forall i :: 0 <= i < |rest| ==> !IsArgument(rest[i])
  {
    assert forall i :: 1 <= i < |ps| ==> ps[i] == rest[i - 1];
  }

  /** Compacting a concatenation concatenates the compacted parts, so the
      relative order of arguments, and of options, is kept. */
  lemma {:induction false} CompactAppend(a: seq<Param>, b: seq<Param>)
    ensures ArgsOf(a + b) == ArgsOf(a) + ArgsOf(b)
    ensures OptsOf(a + b) == OptsOf(a) + OptsOf(b)
  {
    if |a| == 0 {
      assert a + b == b;
    } else {
      assert (a + b)[0] == a[0];
      assert (a + b)[1..] == a[1..] + b;
      CompactAppend(a[1..], b);
      calc {
        ArgsOf(a + b);
        ArgHead(a[0]) + ArgsOf(a[1..] + b);
        ArgHead(a[0]) + (ArgsOf(a[1..]) + ArgsOf(b));
        (ArgHead(a[0]) + ArgsOf(a[1..])) + ArgsOf(b);
      }
      calc {
        OptsOf(a + b);
        OptHead(a[0]) + OptsOf(a[1..] + b);
        OptHead(a[0]) + (OptsOf(a[1..]) + OptsOf(b));
        (OptHead(a[0]) + OptsOf(a[1..])) + OptsOf(b);
      }
    }
  }

  /** A lone required argument without description or default is just its
      name; a lone option with only a default shows it in brackets. */
  lemma CompactExamples(name: string, v: PyValue)
    requires v != PyNone
    ensures CompactParameters([Param(name, "argument", true, "", PyNone)]) == Compacted([name], [])
    ensures CompactParameters([Param(name, "option", false, "", v)]) == Compacted([], ["--" + name + " [" + Show(v) + "]"])
  {
  }

  /** A boolean flag defaulting to False is listed without a default. */
  lemma FalseFlagHasNoDefault(paramName: string, help: string, decls: seq<string>)
    requires |help| > 0
    ensures CompactParameters([Introspect(paramName, OptionDecl(Some(help), PyBool(false), decls)).value]).opts
      == ["--" + OptionName(paramName, decls) + ": " + help]
  {
  }

  // ------------------------------------------------------------ the manifest

  datatype ActionInfo = ActionInfo(name: string, description: string, parameters: seq<Param>)

  datatype Introspected = Introspected(name: string, command: string, description: string, actions: seq<ActionInfo>)

  datatype CompactAction = CompactAction(desc: Option<string>, args: Option<seq<string>>, opts: Option<seq<string>>,
                                         out: Option<string>)

  datatype ManifestDoc = ManifestDoc(name: string, command: string, example: string, desc: string,
                                     actions: Option<seq<(string, CompactAction)>>)

  function NonEmpty(xs: seq<string>): (r: Option<seq<string>>)
    ensures r.Some? <==> |xs| > 0
    ensures r.Some? ==> r.value == xs
  {
    if |xs| > 0 then Some(xs) else None
  }

  /** The compact entry of one action. */
  function CompactActionOf(a: ActionInfo, outputs: map<string, string>): (r: CompactAction)
    ensures r.desc.Some? <==> |a.description| > 0
    ensures r.desc.Some? ==> r.desc.value == a.description
    ensures r.args.Some? <==> exists i :: 0 <= i < |a.parameters| && IsArgument(a.parameters[i])
    ensures r.opts.Some? <==> exists i :: 0 <= i < |a.parameters| && !IsArgument(a.parameters[i])
    ensures r.out.Some? <==> a.name in outputs
    ensures r.out.Some? ==> r.out.value == outputs[a.name]
  {
    var c := CompactParameters(a.parameters);
    CompactAction(if |a.description| > 0 then Some(a.description) else None, NonEmpty(c.args), NonEmpty(c.opts),
                  if a.name in outputs then Some(outputs[a.name]) else None)
  }

  /** `actions[name] = entry`: a new name is appended, an existing one keeps
      its place and takes the new entry. */
  function Put(entries: seq<(string, CompactAction)>, name: string, entry: CompactAction)
    : (r: seq<(string, CompactAction)>)
    ensures (exists i :: 0 <= i < |entries| && entries[i].0 == name) ==> |r| == |entries|
    ensures (forall i :: 0 <= i < |entries| ==> entries[i].0 != name) ==> r == entries + [(name, entry)]
    ensures forall i :: 0 <= i < |entries| ==> r[i] == if entries[i].0 == name then (name, entry) else entries[i]
  {
    if exists i :: 0 <= i < |entries| && entries[i].0 == name then
      seq(|entries|, i requires 0 <= i < |entries| => if entries[i].0 == name then (name, entry) else entries[i])
    else entries + [(name, entry)]
  }

  function ActionEntries(actions: seq<ActionInfo>, outputs: map<string, string>, acc: seq<(string, CompactAction)>)
    : (r: seq<(string, CompactAction)>)
    ensures |r| >= |acc|
    ensures |actions| > 0 ==> |r| > 0
    decreases |actions|
  {
    if |actions| == 0 then acc
    else ActionEntries(actions[1..], outputs, Put(acc, actions[0].name, CompactActionOf(actions[0], outputs)))
  }

  /** Every introspected action has an entry, keyed by its name. */
  lemma {:induction false} ActionEntriesComplete(actions: seq<ActionInfo>, outputs: map<string, string>,
                                                 acc: seq<(string, CompactAction)>, name: string)
    requires (exists i :: 0 <= i < |acc| && acc[i].0 == name) || (exists k :: 0 <= k < |actions| && actions[k].name == name)
    ensures exists i :: 0 <= i < |ActionEntries(actions, outputs, acc)| && ActionEntries(actions, outputs, acc)[i].0 == name
    decreases |actions|
  {
    if |actions| == 0 {
      var i :| 0 <= i < |acc| && acc[i].0 == name;
      assert ActionEntries(actions, outputs, acc) == acc;
    } else {
      var acc' := Put(acc, actions[0].name, CompactActionOf(actions[0], outputs));
      if exists i :: 0 <= i < |acc| && acc[i].0 == name {
        var i :| 0 <= i < |acc| && acc[i].0 == name;
        assert acc'[i].0 == name;
      } else if actions[0].name == name {
        assert acc' == acc + [(name, CompactActionOf(actions[0], outputs))];
        assert acc'[|acc|].0 == name;
      } else {
        var k :| 0 <= k < |actions| && actions[k].name == name;
        assert actions[1..][k - 1].name == name;
      }
      ActionEntriesComplete(actions[1..], outputs, acc', name);
      assert ActionEntries(actions, outputs, acc) == ActionEntries(actions[1..], outputs, acc');
    }
  }

  /** `build_compact_manifest`. */
  function BuildCompactManifest(i: Introspected, outputs: map<string, string>): (m: ManifestDoc)
    ensures m.name == i.name && m.command == i.command && m.desc == i.description
    ensures m.example == i.command + " ACTION ARG --OPTION VALUE"
    ensures m.actions.Some? <==> |i.actions| > 0
  {
    var entries := ActionEntries(i.actions, outputs, []);
    ManifestDoc(i.name, i.command, i.command + " ACTION ARG --OPTION VALUE", i.description,
                if |entries| > 0 then Some(entries) else None)
  }

  /** The manifest lists every action of the application by name. */
  lemma ManifestListsEveryAction(i: Introspected, outputs: map<string, string>, k: nat)
    requires k < |i.actions|
    ensures BuildCompactManifest(i, outputs).actions.Some?
    ensures exists j ::
      (0 <= j < |BuildCompactManifest(i, outputs).actions.value|
       && BuildCompactManifest(i, outputs).actions.value[j].0 == i.actions[k].name)
  {
    ActionEntriesComplete(i.actions, outputs, [], i.actions[k].name);
  }

  /** Every entry is a carried-over one no action renames, or the compact
      form of an action under that action's name. */
  lemma {:induction false} ActionEntriesFrom(actions: seq<ActionInfo>, outputs: map<string, string>,
                                             acc: seq<(string, CompactAction)>, e: (string, CompactAction))
    requires e in ActionEntries(actions, outputs, acc)
    ensures (e in acc && forall k :: 0 <= k < |actions| ==> actions[k].name != e.0)
      || exists k :: 0 <= k < |actions| && e == (actions[k].name, CompactActionOf(actions[k], outputs))
    decreases |actions|
  {
    if |actions| > 0 {
      var a := actions[0];
      var acc' := Put(acc, a.name, CompactActionOf(a, outputs));
      ActionEntriesFrom(actions[1..], outputs, acc', e);
      assert forall k :: 1 <= k < |actions| ==> actions[k] == actions[1..][k - 1];
      if e in acc' && forall k :: 0 <= k < |actions[1..]| ==> actions[1..][k].name != e.0 {
        var i :| 0 <= i < |acc'| && acc'[i] == e;
        if i < |acc| && acc[i].0 != a.name {
          assert e == acc[i];
        } else {
          assert e == (actions[0].name, CompactActionOf(actions[0], outputs));
        }
      }
    }
  }

  /** Each action listed in the manifest is the compact form of an
      introspected action of that name. */
  lemma ManifestEntriesFaithful(i: Introspected, outputs: map<string, string>, e: (string, CompactAction))
    requires BuildCompactManifest(i, outputs).actions.Some? && e in BuildCompactManifest(i, outputs).actions.value
    ensures exists k :: 0 <= k < |i.actions| && e == (i.actions[k].name, CompactActionOf(i.actions[k], outputs))
  {
    ActionEntriesFrom(i.actions, outputs, [], e);
  }
}
