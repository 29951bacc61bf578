/** The command tree: how registered commands build it and how an argument list is routed through it. */
module CliRouter {
  import opened Wrappers
  import opened CliForm
  import opened Text
  import opened CliParser

  datatype CommandConfig = CommandConfig(aliases: Option<seq<string>>, options: seq<(string, Config)>, args: Option<seq<Arg>>)

  datatype CliGroup = CliGroup(path: seq<string>, aliases: seq<string>)
  datatype CliCommand = CliCommand(path: seq<string>, command: CommandConfig)

  /** A node of the tree; a child is kept under its own name, in the order of insertion. */
  datatype Node = Node(name: string, aliases: seq<string>, children: seq<Node>, hasCommand: bool)

  const ROOT := Node("", [], [], false)

  /** The names of siblings differ, at every depth. */
  predicate WellFormed(node: Node) {
    && (forall i, j | 0 <= i < j < |node.children| :: node.children[i].name != node.children[j].name)
    && (forall i | 0 <= i < |node.children| :: WellFormed(node.children[i]))
  }

  /** The first child of that name; the number of children if there is none. */
  function ByName(children: seq<Node>, name: string): (k: nat)
    ensures k <= |children|
    ensures k < |children| ==> children[k].name == name
    ensures forall i | 0 <= i < k :: children[i].name != name
  {
    if children == [] || children[0].name == name then 0 else 1 + ByName(children[1..], name)
  }

  function ByAlias(children: seq<Node>, name: string): (k: nat)
    ensures k <= |children|
    ensures k < |children| ==> name in children[k].aliases
    ensures forall i | 0 <= i < k :: name !in children[i].aliases
  {
    if children == [] || name in children[0].aliases then 0 else 1 + ByAlias(children[1..], name)
  }

  /** The node at the end of a path of names. */
  function At(node: Node, path: seq<string>): Option<Node>
    decreases |path|
  {
    if path == [] then Some(node)
    else
      var k := ByName(node.children, path[0]);
      if k < |node.children| then At(node.children[k], path[1..]) else None
  }

  // ---------- building ----------

  /** What registering a group or a command does to the node at its path. */
  datatype Entry = Group(path: seq<string>, groupAliases: seq<string>) | Command(path: seq<string>, aliases: Option<seq<string>>)

  function Mark(node: Node, entry: Entry): Node {
    if entry.Group? then node.(aliases := entry.groupAliases)
    else node.(hasCommand := true, aliases := entry.aliases.GetOr(node.aliases))
  }

  function Child(name: string): Node {
    Node(name, [], [], false)
  }

  /** Adds the nodes missing on the path and marks the last. */
  function Insert(node: Node, path: seq<string>, entry: Entry): Node
    decreases |path|
  {
    if path == [] then Mark(node, entry)
    else
      var k := ByName(node.children, path[0]);
      if k < |node.children| then node.(children := node.children[k := Insert(node.children[k], path[1..], entry)])
      else node.(children := node.children + [Insert(Child(path[0]), path[1..], entry)])
  }

  function InsertAll(node: Node, entries: seq<Entry>): Node {
    if entries == [] then node
    else
      var last := entries[|entries| - 1];
      Insert(InsertAll(node, entries[..|entries| - 1]), last.path, last)
  }

  function Entries(groups: seq<CliGroup>, commands: seq<CliCommand>): seq<Entry> {
    seq(|groups|, i requires 0 <= i < |groups| => Group(groups[i].path, groups[i].aliases))
    + seq(|commands|, i requires 0 <= i < |commands| => Command(commands[i].path, commands[i].command.aliases))
  }

  function Join(path: seq<string>): string {
    if path == [] then "" else if |path| == 1 then path[0] else path[0] + "/" + Join(path[1..])
  }

  /** The commands under their joined paths; the last registration wins. */
  function CommandMap(commands: seq<CliCommand>): map<string, CommandConfig> {
    if commands == [] then map[]
    else
      var last := commands[|commands| - 1];
      CommandMap(commands[..|commands| - 1])[Join(last.path) := last.command]
  }

  method BuildTree(groups: seq<CliGroup>, commands: seq<CliCommand>)
    returns (root: Node, commandMap: map<string, CommandConfig>)
    ensures root == InsertAll(ROOT, Entries(groups, commands))
    ensures commandMap == CommandMap(commands)
  {
    hide Insert, Join;
    root, commandMap := ROOT, map[];
    for i := 0 to |groups|
      invariant root == InsertAll(ROOT, Entries(groups[..i], []))
    {
      assert Entries(groups[..i + 1], [])[..i] == Entries(groups[..i], []);
      root := Insert(root, groups[i].path, Group(groups[i].path, groups[i].aliases));
    }
    assert groups[..|groups|] == groups && commands[..0] == [];
    for i := 0 to |commands|
      invariant root == InsertAll(ROOT, Entries(groups, commands[..i]))
      invariant commandMap == CommandMap(commands[..i])
    {
      var path := commands[i].path;
      assert Entries(groups, commands[..i + 1])[..|groups| + i] == Entries(groups, commands[..i]);
      assert commands[..i + 1][..i] == commands[..i];
      root := Insert(root, path, Command(path, commands[i].command.aliases));
      commandMap := commandMap[Join(path) := commands[i].command];
    }
    assert commands[..|commands|] == commands;
  }

  lemma {:induction false} InsertKeepsNames(node: Node, path: seq<string>, entry: Entry)
    requires WellFormed(node)
    ensures WellFormed(Insert(node, path, entry)) && Insert(node, path, entry).name == node.name
    decreases |path|
  {
    if path != [] {
      var k := ByName(node.children, path[0]);
      InsertKeepsNames(if k < |node.children| then node.children[k] else Child(path[0]), path[1..], entry);
    }
  }

  lemma {:induction false} SameNames(a: seq<Node>, b: seq<Node>, name: string)
    requires |a| == |b| && forall i | 0 <= i < |a| :: a[i].name == b[i].name
    ensures ByName(a, name) == ByName(b, name)
  {
    if a != [] && a[0].name != name {
      SameNames(a[1..], b[1..], name);
    }
  }

  lemma {:induction false} AppendName(a: seq<Node>, x: Node, name: string)
    ensures ByName(a + [x], name)
         == if ByName(a, name) < |a| then ByName(a, name) else if x.name == name then |a| else |a| + 1
  {
    var k, m := ByName(a, name), ByName(a + [x], name);
    assert forall i | 0 <= i < |a| :: (a + [x])[i] == a[i];
    assert k < m ==> (a + [x])[k].name != name;
  }

  /** The child on the path, before the insertion. */
  function Next(node: Node, name: string): Node {
    var k := ByName(node.children, name);
    if k < |node.children| then node.children[k] else Child(name)
  }

  lemma InsertName(node: Node, path: seq<string>, entry: Entry)
    ensures Insert(node, path, entry).name == node.name
    ensures Insert(node, path, entry).hasCommand == (node.hasCommand || (path == [] && entry.Command?))
  {
  }

  /** One level down, only the child on the path changes. */
  lemma InsertChild(node: Node, path: seq<string>, entry: Entry, name: string)
    requires path != []
    ensures var after := Insert(node, path, entry).children;
            var k, m := ByName(node.children, name), ByName(after, name);
            if name == path[0] then m < |after| && after[m] == Insert(Next(node, name), path[1..], entry)
            else (m < |after| <==> k < |node.children|) && (m < |after| ==> after[m] == node.children[k])
  {
    var k0 := ByName(node.children, path[0]);
    var child := Insert(Next(node, path[0]), path[1..], entry);
    InsertName(Next(node, path[0]), path[1..], entry);
    if k0 < |node.children| {
      SameNames(node.children, node.children[k0 := child], name);
    } else {
      AppendName(node.children, child, name);
    }
  }

  /** The node at a prefix of the path, before the insertion. */
  function Was(node: Node, at: seq<string>): Node {
    At(node, at).GetOr(Child(if at == [] then node.name else at[|at| - 1]))
  }

  /** Inserting changes the nodes on its path and nothing else. */
  lemma {:induction false} InsertAt(node: Node, path: seq<string>, entry: Entry, at: seq<string>)
    ensures At(Insert(node, path, entry), at)
         == if at <= path then Some(Insert(Was(node, at), path[|at|..], entry)) else At(node, at)
    decreases |path|
  {
    hide Was;
    if at == [] {
      assert path[0..] == path;
      WasTop(node);
    } else if path == [] {
    } else {
      InsertChild(node, path, entry, at[0]);
      if at[0] == path[0] {
        InsertAt(Next(node, path[0]), path[1..], entry, at[1..]);
        assert at <= path <==> at[1..] <= path[1..];
        assert at <= path ==> path[1..][|at| - 1..] == path[|at|..];
        WasBelow(node, at);
        NewAt(path[0], at[1..]);
      }
    }
  }

  lemma WasTop(node: Node)
    ensures Was(node, []) == node
  {
  }

  lemma WasBelow(node: Node, at: seq<string>)
    requires at != []
    ensures Was(node, at) == Was(Next(node, at[0]), at[1..])
  {
    NewAt(at[0], at[1..]);
  }

  lemma NewAt(name: string, at: seq<string>)
    ensures At(Child(name), at) == if at == [] then Some(Child(name)) else None
  {
  }

  predicate Known(entries: seq<Entry>, at: seq<string>) {
    at == [] || exists i | 0 <= i < |entries| :: at <= entries[i].path
  }

  predicate IsCommand(entries: seq<Entry>, at: seq<string>) {
    exists i | 0 <= i < |entries| :: entries[i].Command? && entries[i].path == at
  }

  lemma KnownStep(entries: seq<Entry>, at: seq<string>)
    requires entries != []
    ensures var n := |entries| - 1;
            && (Known(entries, at) <==> Known(entries[..n], at) || at <= entries[n].path)
            && (IsCommand(entries, at) <==> IsCommand(entries[..n], at) || (entries[n].Command? && entries[n].path == at))
  {
    var n := |entries| - 1;
    assert forall i | 0 <= i < n :: entries[..n][i] == entries[i];
  }

  /** The tree holds the registered paths and their prefixes, and marks the commands among them. */
  lemma {:induction false} TreeHoldsEntries(entries: seq<Entry>, at: seq<string>)
    ensures At(InsertAll(ROOT, entries), at).Some? <==> Known(entries, at)
    ensures Known(entries, at) ==> (At(InsertAll(ROOT, entries), at).value.hasCommand <==> IsCommand(entries, at))
    ensures Known(entries, at) && at != [] ==> At(InsertAll(ROOT, entries), at).value.name == at[|at| - 1]
  {
    if entries == [] {
      NewAt("", at);
    } else {
      hide At, Insert, Known, IsCommand;
      var n := |entries| - 1;
      var before := InsertAll(ROOT, entries[..n]);
      var last := entries[n];
      TreeHoldsEntries(entries[..n], at);
      KnownStep(entries, at);
      InsertAt(before, last.path, last, at);
      if at <= last.path {
        RootKnown(entries[..n], at);
        InsertName(Was(before, at), last.path[|at|..], last);
        assert last.path[|at|..] == [] <==> last.path == at;
        CommandKnown(entries[..n], at);
      }
    }
  }

  lemma RootKnown(entries: seq<Entry>, at: seq<string>)
    ensures at == [] ==> Known(entries, at)
  {
  }

  lemma CommandKnown(entries: seq<Entry>, at: seq<string>)
    ensures IsCommand(entries, at) ==> Known(entries, at)
  {
  }

  // ---------- the command map ----------

  predicate SlashFree(path: seq<string>) {
    path != [] && forall segment | segment in path :: '/' !in segment
  }

  function FirstSlash(s: string): (n: nat)
    ensures n <= |s|
    ensures forall i | 0 <= i < n :: s[i] != '/'
    ensures n < |s| ==> s[n] == '/'
  {
    if s == [] || s[0] == '/' then 0 else 1 + FirstSlash(s[1..])
  }

  lemma HeadEnds(p: seq<string>)
    requires SlashFree(p)
    ensures FirstSlash(Join(p)) == |p[0]| <= |Join(p)|
    ensures |p| > 1 <==> FirstSlash(Join(p)) < |Join(p)|
    ensures Join(p)[..|p[0]|] == p[0]
  {
    var text := Join(p);
    assert p[0] in p && '/' !in p[0];
    assert text[..|p[0]|] == p[0];
    assert forall i | 0 <= i < |p[0]| :: text[i] == p[0][i] && p[0][i] in p[0];
    assert |p| > 1 ==> text[|p[0]|] == '/';
  }

  lemma {:induction false} JoinInjective(p: seq<string>, q: seq<string>)
    requires SlashFree(p) && SlashFree(q) && Join(p) == Join(q)
    ensures p == q
  {
    HeadEnds(p);
    HeadEnds(q);
    if |p| > 1 {
      var n := |p[0]|;
      assert Join(p[1..]) == Join(p)[n + 1..] == Join(q[1..]);
      JoinInjective(p[1..], q[1..]);
      assert p == [p[0]] + p[1..] && q == [q[0]] + q[1..];
    }
  }

  predicate LastOf(commands: seq<CliCommand>, i: int) {
    0 <= i < |commands| && forall j | i < j < |commands| :: commands[j].path != commands[i].path
  }

  /** A path leads to the command registered last under it. */
  lemma {:induction false} CommandFound(commands: seq<CliCommand>, i: int)
    requires LastOf(commands, i) && forall j | 0 <= j < |commands| :: SlashFree(commands[j].path)
    ensures Join(commands[i].path) in CommandMap(commands)
    ensures CommandMap(commands)[Join(commands[i].path)] == commands[i].command
  {
    var n := |commands| - 1;
    if i < n {
      CommandFound(commands[..n], i);
      if Join(commands[n].path) == Join(commands[i].path) {
        JoinInjective(commands[n].path, commands[i].path);
      }
    }
  }

  // ---------- routing ----------

  /** The child a segment names: by name, else by alias; the number of children if none answers. */
  function Match(children: seq<Node>, segment: string): (k: nat)
    ensures k <= |children|
    ensures k < |children| ==> children[k].name == segment || segment in children[k].aliases
    ensures k == |children| ==> forall c | c in children :: c.name != segment && segment !in c.aliases
  {
    if ByName(children, segment) < |children| then ByName(children, segment) else ByAlias(children, segment)
  }

  function Route(node: Node, args: seq<string>): Result<(seq<string>, seq<string>)>
    decreases |args|
  {
    if args == [] || Starts(args[0], "-") then Ok(([], args))
    else
      var k := Match(node.children, args[0]);
      if k == |node.children| then
        if node.children != [] then Err(UnknownCommand) else Ok(([], args))
      else
        var rest :- Route(node.children[k], args[1..]);
        Ok(([node.children[k].name] + rest.0, rest.1))
  }

  method RouteCommand(root: Node, args: seq<string>) returns (r: Result<(seq<string>, seq<string>)>)
    ensures r == Route(root, args)
  {
    hide Match, Starts;
    var commandPath: seq<string> := [];
    var currentNode := root;
    var i := 0;
    assert args[0..] == args;
    assert Route(root, args).Ok? ==> [] + Route(root, args).value.0 == Route(root, args).value.0;
    while i < |args|
      invariant 0 <= i <= |args|
      invariant Route(root, args) == Prefixed(commandPath, Route(currentNode, args[i..]))
      decreases |args| - i
    {
      var segment := args[i];
      if Starts(segment, "-") {
        break;
      }
      var k := Match(currentNode.children, segment);
      if k == |currentNode.children| {
        if currentNode.children != [] {
          return Err(UnknownCommand);
        }
        break;
      }
      assert args[i..][1..] == args[i + 1..];
      ghost var rest := Route(currentNode.children[k], args[i + 1..]);
      assert rest.Ok? ==> commandPath + ([currentNode.children[k].name] + rest.value.0)
                          == commandPath + [currentNode.children[k].name] + rest.value.0;
      commandPath := commandPath + [currentNode.children[k].name];
      currentNode := currentNode.children[k];
      i := i + 1;
    }
    assert commandPath + [] == commandPath;
    return Ok((commandPath, args[i..]));
  }

  function Prefixed(path: seq<string>, r: Result<(seq<string>, seq<string>)>): Result<(seq<string>, seq<string>)> {
    if r.Err? then r else Ok((path + r.value.0, r.value.1))
  }

  predicate Plain(tokens: seq<string>) {
    forall t | t in tokens :: !Starts(t, "-")
  }

  /** The path to a childless node routes to that node, and leaves the rest alone. */
  lemma {:induction false} PathRoutes(node: Node, path: seq<string>, rest: seq<string>)
    requires At(node, path).Some? && At(node, path).value.children == [] && Plain(path)
    ensures Route(node, path + rest) == Ok((path, rest))
    decreases |path|
  {
    if path == [] {
      assert path + rest == rest;
    } else {
      var args := path + rest;
      assert args[0] == path[0] && args[0] in path && args[1..] == path[1..] + rest;
      PathRoutes(node.children[ByName(node.children, path[0])], path[1..], rest);
      assert [path[0]] + path[1..] == path;
    }
  }

  /** What routing returns is a path of the tree that the leading tokens spell, by name or by alias. */
  ghost predicate Spelled(node: Node, tokens: seq<string>, path: seq<string>)
    decreases |path|
  {
    && |tokens| == |path|
    && (path == [] || exists k | 0 <= k < |node.children| ::
          && node.children[k].name == path[0]
          && (tokens[0] == path[0] || tokens[0] in node.children[k].aliases)
          && Spelled(node.children[k], tokens[1..], path[1..]))
  }

  lemma {:induction false} RouteIsSpelled(node: Node, args: seq<string>)
    requires Route(node, args).Ok?
    ensures var (path, rest) := Route(node, args).value;
            && |path| <= |args| && rest == args[|path|..]
            && Spelled(node, args[..|path|], path) && Plain(args[..|path|])
    decreases |args|
  {
    if args != [] && !Starts(args[0], "-") {
      var k := Match(node.children, args[0]);
      if k < |node.children| {
        RouteIsSpelled(node.children[k], args[1..]);
        var path := Route(node, args).value.0;
        assert args[..|path|][1..] == args[1..][..|path| - 1] && path[1..] == Route(node.children[k], args[1..]).value.0;
      }
    }
  }
}
