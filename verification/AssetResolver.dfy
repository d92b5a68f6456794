/** Resolution of asset paths with a cache (src/asset-resolution.cc, src/asset-resolution.hh).
    The file system and the callbacks of custom handlers are fixed functions. */
module AssetResolver {
  import opened Options
  import opened SuffixCandidates

  /** A custom handler: either callback may be missing.  Resolving fails or gives a path; asking
      for the size fails or gives it. */
  datatype Handler = Handler(resolve: Option<(string, seq<string>) -> Option<string>>,
      size: Option<string -> Option<nat>>)

  datatype World = World(extension: string -> string, findFile: (string, seq<string>) -> string)

  datatype Config = Config(handlers: map<string, Handler>, searchPaths: seq<string>, cwd: string, fallback: bool)

  const WILDCARD := "*"

  // ----- what a resolver without a cache answers -------------------------------------------------

  function LookUpFile(w: World, c: Config, path: string): string {
    var first := w.findFile(path, if c.cwd == "." || c.cwd == "./" then [] else [c.cwd]);
    if first != "" then first else w.findFile(path, c.searchPaths)
  }

  /** The handler that resolves `path`: that of the extension or the wildcard one, whichever
      first has the callback. */
  function ResolvingHandler(w: World, c: Config, path: string): (h: Option<Handler>)
    ensures h.Some? ==> h.value.resolve.Some?
  {
    var ext := w.extension(path);
    if ext in c.handlers && c.handlers[ext].resolve.Some? then Some(c.handlers[ext])
    else if WILDCARD in c.handlers && c.handlers[WILDCARD].resolve.Some? then Some(c.handlers[WILDCARD])
    else None
  }

  function Literal(w: World, c: Config, path: string): string {
    match ResolvingHandler(w, c, path)
    case Some(h) => h.resolve.value(path, c.searchPaths).GetOr("")
    case None => LookUpFile(w, c, path)
  }

  predicate Complete(c: Config, name: string) {
    name in c.handlers && c.handlers[name].resolve.Some? && c.handlers[name].size.Some?
  }

  predicate HasContent(h: Handler, c: Config, path: string)
    requires h.resolve.Some? && h.size.Some?
  {
    match h.resolve.value(path, c.searchPaths)
    case None => false
    case Some(resolved) => h.size.value(resolved).GetOr(0) > 0
  }

  /** A wildcard handler that lacks a callback hides the files. */
  predicate Found(w: World, c: Config, path: string) {
    var ext := w.extension(path);
    if Complete(c, ext) then HasContent(c.handlers[ext], c, path)
    else if Complete(c, WILDCARD) then HasContent(c.handlers[WILDCARD], c, path)
    else WILDCARD !in c.handlers && Literal(w, c, path) != ""
  }

  /** Without handlers a literal result is known to exist; with handlers the path must be found. */
  predicate Accepts(w: World, c: Config, path: string) {
    if |c.handlers| == 0 then Literal(w, c, path) != "" else Found(w, c, path)
  }

  /** The number of candidates before the first that is accepted. */
  function FirstAccepted(w: World, c: Config, candidates: seq<string>): (k: nat)
    ensures k <= |candidates| && (k < |candidates| ==> Accepts(w, c, candidates[k]))
    ensures forall i :: 0 <= i < k ==> !Accepts(w, c, candidates[i])
  {
    if candidates == [] || Accepts(w, c, candidates[0]) then 0 else 1 + FirstAccepted(w, c, candidates[1..])
  }

  /** The resolved path, and whether it came from a shorter candidate. */
  function Resolution(w: World, c: Config, path: string): (string, bool) {
    var literal := Literal(w, c, path);
    if (literal != "" && Accepts(w, c, path)) || !c.fallback then (literal, false)
    else
      var k := FirstAccepted(w, c, Candidates(path));
      if k == |Candidates(path)| then (literal, false) else (Literal(w, c, Candidates(path)[k]), true)
  }

  // ----- the resolver --------------------------------------------------------------------------------

  class Resolver {
    const world: World
    var handlers: map<string, Handler>
    var searchPaths: seq<string>
    var cwd: string
    var fallback: bool
    var cache: map<string, string>

    function Conf(): Config
      reads this`handlers, this`searchPaths, this`cwd, this`fallback
    {
      Config(handlers, searchPaths, cwd, fallback)
    }

    /** Every cached answer, misses included, is the one that a fresh look-up gives. */
    ghost predicate Valid()
      reads this
    {
      forall p :: p in cache ==> cache[p] == LookUpFile(world, Conf(), p)
    }

    constructor (world: World)
      ensures Valid() && this.world == world && Conf() == Config(map[], [], "./", true)
    {
      this.world := world;
      handlers, searchPaths, cwd, fallback, cache := map[], [], "./", true, map[];
    }

    method ResolveLiteral(path: string) returns (r: string)
      requires Valid()
      modifies this`cache
      ensures Valid() && r == Literal(world, Conf(), path)
    {
      var ext := world.extension(path);
      if ext in handlers && handlers[ext].resolve.Some? {
        r := handlers[ext].resolve.value(path, searchPaths).GetOr("");
        return;
      }
      if WILDCARD in handlers && handlers[WILDCARD].resolve.Some? {
        r := handlers[WILDCARD].resolve.value(path, searchPaths).GetOr("");
        return;
      }
      if path in cache {
        return cache[path];
      }
      if cwd == "." || cwd == "./" {
        r := world.findFile(path, []);
      } else {
        r := world.findFile(path, [cwd]);
      }
      if r == "" {
        r := world.findFile(path, searchPaths);
      }
      cache := cache[path := r];
    }

    method Find(path: string) returns (found: bool)
      requires Valid()
      modifies this`cache
      ensures Valid() && found == Found(world, Conf(), path)
    {
      var ext := world.extension(path);
      if ext in handlers && handlers[ext].resolve.Some? && handlers[ext].size.Some? {
        found := SizeIsPositive(handlers[ext], path);
        return;
      }
      if WILDCARD in handlers {
        if handlers[WILDCARD].resolve.Some? && handlers[WILDCARD].size.Some? {
          found := SizeIsPositive(handlers[WILDCARD], path);
          return;
        }
        return false;
      }
      var r := ResolveLiteral(path);
      found := r != "";
    }

    method SizeIsPositive(h: Handler, path: string) returns (found: bool)
      requires h.resolve.Some? && h.size.Some?
      ensures found == HasContent(h, Conf(), path)
    {
      var resolved := h.resolve.value(path, searchPaths);
      if resolved.None? {
        return false;
      }
      var size := h.size.value(resolved.value);
      found := size.Some? && size.value > 0;
    }

    method Resolve(path: string) returns (resolved: string, usedFallback: bool)
      requires Valid()
      modifies this`cache
      ensures Valid() && (resolved, usedFallback) == Resolution(world, Conf(), path)
    {
      hide Literal, Found, Candidates, LookUpFile;
      usedFallback := false;
      resolved := ResolveLiteral(path);
      var literalOk := false;
      if resolved != "" {
        if |handlers| == 0 {
          literalOk := true;
        } else {
          literalOk := Find(path);
        }
      }
      if !literalOk && fallback {
        var candidates := FindCandidates(path);
        ghost var literal := resolved;
        var i := 0;
        while i < |candidates|
          invariant Valid() && 0 <= i <= |candidates| && resolved == literal && !usedFallback
          invariant FirstAccepted(world, Conf(), candidates) == i + FirstAccepted(world, Conf(), candidates[i..])
        {
          var candidate := candidates[i];
          assert candidates[i..][0] == candidate && candidates[i..][1..] == candidates[i + 1..];
          if |handlers| == 0 {
            var rpath := ResolveLiteral(candidate);
            if rpath != "" {
              usedFallback, resolved := true, rpath;
              return;
            }
          } else {
            var found := Find(candidate);
            if found {
              usedFallback := true;
              resolved := ResolveLiteral(candidate);
              return;
            }
          }
          i := i + 1;
        }
      }
    }

    method SetSearchPaths(paths: seq<string>)
      modifies this`searchPaths, this`cache
      ensures Valid() && Conf() == old(Conf()).(searchPaths := paths)
    {
      searchPaths, cache := paths, map[];
    }

    method AddSearchPath(path: string)
      modifies this`searchPaths, this`cache
      ensures Valid() && Conf() == old(Conf()).(searchPaths := old(searchPaths) + [path])
    {
      searchPaths, cache := searchPaths + [path], map[];
    }

    method SetWorkingPath(path: string)
      modifies this`cwd, this`cache
      ensures Valid() && Conf() == old(Conf()).(cwd := path)
    {
      cwd, cache := path, map[];
    }

    method SetFallback(enable: bool)
      modifies this`fallback, this`cache
      ensures Valid() && Conf() == old(Conf()).(fallback := enable)
    {
      fallback, cache := enable, map[];
    }

    /** An empty extension is ignored. */
    method Register(name: string, h: Handler)
      requires Valid()
      modifies this`handlers, this`cache
      ensures Valid() && Conf() ==
        if name == "" then old(Conf()) else old(Conf()).(handlers := old(handlers)[name := h])
    {
      if name != "" {
        handlers, cache := handlers[name := h], map[];
      }
    }

    method Unregister(name: string) returns (known: bool)
      requires Valid()
      modifies this`handlers, this`cache
      ensures Valid() && known == (name in old(handlers)) && Conf() == old(Conf()).(handlers := old(handlers) - {name})
    {
      known := name in handlers;
      if known {
        handlers, cache := handlers - {name}, map[];
      }
    }

    method Perform(op: Op) returns (answer: Answer)
      requires Valid()
      modifies this`handlers, this`searchPaths, this`cwd, this`fallback, this`cache
      ensures Valid() && answer == AnswerTo(world, old(Conf()), op) && Conf() == After(old(Conf()), op)
    {
      hide Resolution, Found, LookUpFile;
      answer := Nothing;
      match op
      case AskFind(p) =>
        var found := Find(p);
        answer := Yes(found);
      case AskLiteral(p) =>
        var resolved := ResolveLiteral(p);
        answer := Path(resolved, false);
      case AskResolve(p) =>
        var resolved, used := Resolve(p);
        answer := Path(resolved, used);
      case DoSearchPaths(paths) => SetSearchPaths(paths);
      case DoAddSearchPath(p) => AddSearchPath(p);
      case DoWorkingPath(p) => SetWorkingPath(p);
      case DoFallback(enable) => SetFallback(enable);
      case DoRegister(name, h) => Register(name, h);
      case DoUnregister(name) =>
        var known := Unregister(name);
        answer := Yes(known);
    }

    /** Any calls in any order answer as if there were no cache. */
    method Run(ops: seq<Op>) returns (answers: seq<Answer>)
      requires Valid()
      modifies this`handlers, this`searchPaths, this`cwd, this`fallback, this`cache
      ensures Valid() && answers == Answers(world, old(Conf()), ops).0 && Conf() == Answers(world, old(Conf()), ops).1
    {
      hide AnswerTo, After, Valid;
      answers := [];
      var i := 0;
      assert ops[0..] == ops;
      while i < |ops|
        invariant Valid() && 0 <= i <= |ops|
        invariant Answers(world, old(Conf()), ops).0 == answers + Answers(world, Conf(), ops[i..]).0
        invariant Answers(world, old(Conf()), ops).1 == Answers(world, Conf(), ops[i..]).1
        decreases |ops| - i
      {
        assert ops[i..][0] == ops[i] && ops[i..][1..] == ops[i + 1..];
        var answer := Perform(ops[i]);
        answers := answers + [answer];
        i := i + 1;
      }
      assert ops[i..] == [];
    }
  }

  datatype Op =
    | AskFind(path: string) | AskLiteral(path: string) | AskResolve(path: string)
    | DoSearchPaths(paths: seq<string>) | DoAddSearchPath(path: string)
    | DoWorkingPath(path: string) | DoFallback(enable: bool)
    | DoRegister(name: string, handler: Handler) | DoUnregister(name: string)

  datatype Answer = Yes(b: bool) | Path(path: string, usedFallback: bool) | Nothing

  function AnswerTo(w: World, c: Config, op: Op): Answer {
    match op
    case AskFind(p) => Yes(Found(w, c, p))
    case AskLiteral(p) => Path(Literal(w, c, p), false)
    case AskResolve(p) => Path(Resolution(w, c, p).0, Resolution(w, c, p).1)
    case DoUnregister(name) => Yes(name in c.handlers)
    case _ => Nothing
  }

  function After(c: Config, op: Op): Config {
    match op
    case DoSearchPaths(paths) => c.(searchPaths := paths)
    case DoAddSearchPath(p) => c.(searchPaths := c.searchPaths + [p])
    case DoWorkingPath(p) => c.(cwd := p)
    case DoFallback(enable) => c.(fallback := enable)
    case DoRegister(name, h) => if name == "" then c else c.(handlers := c.handlers[name := h])
    case DoUnregister(name) => c.(handlers := c.handlers - {name})
    case _ => c
  }

  /** The answers of a resolver without a cache to a run of calls, and its last configuration. */
  function Answers(w: World, c: Config, ops: seq<Op>): (seq<Answer>, Config)
    decreases |ops|
  {
    if ops == [] then ([], c)
    else
      var rest := Answers(w, After(c, ops[0]), ops[1..]);
      ([AnswerTo(w, c, ops[0])] + rest.0, rest.1)
  }

  /** What a call changes, field by field. */
  ghost predicate Changes(c: Config, op: Op, d: Config) {
    && d.searchPaths == (match op
                         case DoSearchPaths(paths) => paths
                         case DoAddSearchPath(path) => c.searchPaths + [path]
                         case _ => c.searchPaths)
    && d.cwd == (if op.DoWorkingPath? then op.path else c.cwd)
    && d.fallback == (if op.DoFallback? then op.enable else c.fallback)
    && (forall name :: name in d.handlers <==>
          (op.DoRegister? && op.name == name != "") || (name in c.handlers && !(op.DoUnregister? && op.name == name)))
    && forall name :: name in d.handlers ==>
         d.handlers[name] == if op.DoRegister? && op.name == name != "" then op.handler else c.handlers[name]
  }

  lemma AfterChanges(c: Config, op: Op)
    ensures Changes(c, op, After(c, op))
  {
  }

  /** Call number `i` of a run is answered from the configuration that the calls before it leave, and
      changes what it should. */
  lemma {:induction false} AnswersInTurn(w: World, c: Config, ops: seq<Op>, i: nat)
    requires i < |ops|
    ensures |Answers(w, c, ops).0| == |ops|
    ensures var before := Answers(w, c, ops[..i]).1;
      && Answers(w, c, ops).0[i] == AnswerTo(w, before, ops[i])
      && (ops[i].AskLiteral? ==> Answers(w, c, ops).0[i] == Path(Literal(w, before, ops[i].path), false))
      && Changes(before, ops[i], Answers(w, c, ops[..i + 1]).1)
    decreases |ops|
  {
    hide After, Changes, Literal, Resolution, Found;
    if |ops| > 1 {
      AnswersInTurn(w, After(c, ops[0]), ops[1..], if i > 0 then i - 1 else 0);
    }
    if i > 0 {
      assert ops[..i][0] == ops[0] && ops[..i][1..] == ops[1..][..i - 1];
      assert ops[..i + 1][0] == ops[0] && ops[..i + 1][1..] == ops[1..][..i];
    } else {
      assert ops[..0] == [] && ops[..1] == [ops[0]];
      assert Answers(w, c, [ops[0]]).1 == Answers(w, After(c, ops[0]), []).1;
      AfterChanges(c, ops[0]);
    }
  }

  // ----- what the answers mean ------------------------------------------------------------------------

  /** With neither a handler of the extension nor a wildcard handler that resolves, the working
      directory comes first, whatever the search paths are, and these only when nothing is
      there; the directories "." and "./" stand for no directory. */
  lemma WorkingDirectoryFirst(w: World, c: Config, path: string)
    requires forall name :: name in c.handlers && (name == w.extension(path) || name == "*") ==>
               c.handlers[name].resolve.None?
    ensures c.cwd != "." && c.cwd != "./" && w.findFile(path, [c.cwd]) != "" ==>
              Literal(w, c, path) == w.findFile(path, [c.cwd])
    ensures c.cwd != "." && c.cwd != "./" && w.findFile(path, [c.cwd]) == "" ==>
              Literal(w, c, path) == w.findFile(path, c.searchPaths)
    ensures (c.cwd == "." || c.cwd == "./") && w.findFile(path, []) != "" ==>
              Literal(w, c, path) == w.findFile(path, [])
    ensures (c.cwd == "." || c.cwd == "./") && w.findFile(path, []) == "" ==>
              Literal(w, c, path) == w.findFile(path, c.searchPaths)
  {
  }

  /** What a handler answers to `path`; nothing when it fails. */
  function HandlerAnswer(h: Handler, path: string, dirs: seq<string>): string
    requires h.resolve.Some?
  {
    match h.resolve.value(path, dirs) case Some(r) => r case None => ""
  }

  /** A handler of the extension that resolves has the last word, then a wildcard handler that
      does, and no file is looked up beside either. */
  lemma ExtensionBeforeWildcard(w: World, c: Config, path: string)
    ensures var ext := w.extension(path);
      && (ext in c.handlers && c.handlers[ext].resolve.Some? ==>
            Literal(w, c, path) == HandlerAnswer(c.handlers[ext], path, c.searchPaths))
      && (!(ext in c.handlers && c.handlers[ext].resolve.Some?) && "*" in c.handlers && c.handlers["*"].resolve.Some?
          ==> Literal(w, c, path) == HandlerAnswer(c.handlers["*"], path, c.searchPaths))
  {
  }

  /** The handler resolves the path to something that is not empty. */
  ghost predicate Shows(h: Handler, path: string, dirs: seq<string>) {
    && h.resolve.Some? && h.size.Some?
    && exists r: string, n: nat :: h.resolve.value(path, dirs) == Some(r) && h.size.value(r) == Some(n) && n > 0
  }

  /** A path is found when the handler of its extension shows it or, when that lacks a callback,
      the wildcard handler; files count only where there is no wildcard handler at all. */
  lemma FoundExactly(w: World, c: Config, path: string)
    ensures var ext := w.extension(path);
      Found(w, c, path) <==>
        if ext in c.handlers && c.handlers[ext].resolve.Some? && c.handlers[ext].size.Some? then
          Shows(c.handlers[ext], path, c.searchPaths)
        else if "*" in c.handlers then Shows(c.handlers["*"], path, c.searchPaths)
        else Literal(w, c, path) != ""
  {
    hide Literal;
    var ext := w.extension(path);
    var name := if ext in c.handlers && c.handlers[ext].resolve.Some? && c.handlers[ext].size.Some? then ext else "*";
    if name in c.handlers && c.handlers[name].resolve.Some? && c.handlers[name].size.Some? {
      ShowsExactly(c.handlers[name], c, path);
    }
  }

  lemma ShowsExactly(h: Handler, c: Config, path: string)
    requires h.resolve.Some? && h.size.Some?
    ensures HasContent(h, c, path) <==> Shows(h, path, c.searchPaths)
  {
    match h.resolve.value(path, c.searchPaths)
    case Some(r) =>
      if h.size.value(r).Some? && h.size.value(r).value > 0 {
        assert h.size.value(r) == Some(h.size.value(r).value);
      }
    case None =>
  }

  /** Without any handler a path counts as soon as it resolves; with one it must be found. */
  lemma AcceptedExactly(w: World, c: Config, path: string)
    ensures c.handlers == map[] ==> (Accepts(w, c, path) <==> Literal(w, c, path) != "")
    ensures c.handlers != map[] ==> (Accepts(w, c, path) <==> Found(w, c, path))
  {
    hide Literal, Found;
    assert |c.handlers| == 0 <==> c.handlers == map[];
  }

  /** The flag is set exactly when the path itself does not resolve, the fallback is on and some
      candidate is accepted; then the result is that of the first such candidate.  Otherwise
      it is the literal result. */
  lemma FirstCandidateWins(w: World, c: Config, path: string)
    ensures var (resolved, used) := Resolution(w, c, path); var cs := Candidates(path);
      && (used <==> c.fallback && !(Literal(w, c, path) != "" && Accepts(w, c, path))
                    && exists i :: 0 <= i < |cs| && Accepts(w, c, cs[i]))
      && (!used ==> resolved == Literal(w, c, path))
      && (used ==> exists i :: 0 <= i < |cs| && Accepts(w, c, cs[i]) && resolved == Literal(w, c, cs[i])
                               && forall j :: 0 <= j < i ==> !Accepts(w, c, cs[j]))
  {
  }

  /** The handler that answers whether a path exists is the one that resolves it. */
  ghost predicate OneHandler(w: World, c: Config, path: string) {
    Complete(c, w.extension(path))
        || ResolvingHandler(w, c, path) == (if Complete(c, WILDCARD) then Some(c.handlers[WILDCARD]) else None)
  }

  /** An accepted path resolves to nothing exactly when the handler that resolves it fails or
      answers with an empty path; it cannot fail when it is also the one that found it. */
  lemma AcceptedButEmpty(w: World, c: Config, path: string)
    requires Accepts(w, c, path)
    ensures var h := ResolvingHandler(w, c, path);
      && (Literal(w, c, path) == "" <==> h.Some? && h.value.resolve.value(path, c.searchPaths).GetOr("") == "")
      && (OneHandler(w, c, path) && h.Some? ==> h.value.resolve.value(path, c.searchPaths).Some?)
  {
  }

  /** The flag comes with an empty path exactly when that happens to the first accepted
      candidate. */
  lemma FlagWithoutPathExactly(w: World, c: Config, path: string)
    requires Resolution(w, c, path).1
    ensures var cs := Candidates(path); var k := FirstAccepted(w, c, cs);
      k < |cs| && (Resolution(w, c, path).0 == "" <==>
        ResolvingHandler(w, c, cs[k]).Some?
        && ResolvingHandler(w, c, cs[k]).value.resolve.value(cs[k], c.searchPaths).GetOr("") == "")
  {
    hide Accepts, Candidates, ResolvingHandler, Literal;
    var cs := Candidates(path);
    AcceptedButEmpty(w, c, cs[FirstAccepted(w, c, cs)]);
  }

  /** The handler of the extension resolves without knowing sizes, beside a wildcard handler
      that does both: one finds the path and the other resolves it. */
  predicate Split(w: World, c: Config, path: string) {
    var ext := w.extension(path);
    ext in c.handlers && c.handlers[ext].resolve.Some? && c.handlers[ext].size.None? && Complete(c, WILDCARD)
  }

  /** No handler answers with an empty path. */
  ghost predicate NoEmptyAnswers(c: Config) {
    forall name, p: string, dirs: seq<string> ::
      name in c.handlers && c.handlers[name].resolve.Some? ==> c.handlers[name].resolve.value(p, dirs) != Some("")
  }

  /** The same settings and the same callbacks, whatever the callbacks answer. */
  ghost predicate SameShape(c: Config, d: Config) {
    && d.handlers.Keys == c.handlers.Keys
    && (forall name :: name in c.handlers ==> SameCallbacks(c.handlers[name], d.handlers[name]))
    && (d.searchPaths, d.cwd, d.fallback) == (c.searchPaths, c.cwd, c.fallback)
  }

  predicate SameCallbacks(h: Handler, g: Handler) {
    (g.resolve.Some? <==> h.resolve.Some?) && (g.size.Some? <==> h.size.Some?)
  }

  lemma AcceptedNotEmpty(w: World, c: Config, path: string)
    requires Accepts(w, c, path) && NoEmptyAnswers(c) && !Split(w, c, path)
    ensures Literal(w, c, path) != ""
  {
    hide LookUpFile, NoEmptyAnswers;
    var h := ResolvingHandler(w, c, path);
    if h.Some? {
      assert h.value.resolve.value(path, c.searchPaths) != Some("") by {
        NotEmptyAnswer(c, w.extension(path), path);
        NotEmptyAnswer(c, WILDCARD, path);
      }
    }
  }

  lemma NotEmptyAnswer(c: Config, name: string, path: string)
    requires NoEmptyAnswers(c)
    ensures name in c.handlers && c.handlers[name].resolve.Some? ==>
      c.handlers[name].resolve.value(path, c.searchPaths) != Some("")
  {
  }

  /** With no split candidate and no empty answers, the flag comes with a path. */
  lemma FlagWithPath(w: World, c: Config, path: string)
    requires NoEmptyAnswers(c) && forall i :: 0 <= i < |Candidates(path)| ==> !Split(w, c, Candidates(path)[i])
    ensures Resolution(w, c, path).1 ==> Resolution(w, c, path).0 != ""
  {
    hide Accepts, Candidates, Literal, NoEmptyAnswers, Split;
    var cs := Candidates(path);
    var k := FirstAccepted(w, c, cs);
    if k < |cs| {
      AcceptedNotEmpty(w, c, cs[k]);
    }
  }

  /** The wildcard handler knows `only`; nothing else is known. */
  function Knowing(c: Config, only: string): Config {
    c.(handlers := map name | name in c.handlers :: KnowingHandler(c.handlers[name], name, only))
  }

  function KnowingHandler(h: Handler, name: string, only: string): Handler {
    Handler(if h.resolve.None? then None else
        Some((p: string, dirs: seq<string>) => if name == WILDCARD && p == only then Some("found") else None),
      if h.size.None? then None else Some((p: string) => Some(1)))
  }

  lemma KnowsNothingElse(w: World, c: Config, only: string, path: string)
    requires Complete(c, WILDCARD) && path != only
    ensures Literal(w, Knowing(c, only), path) == "" && !Accepts(w, Knowing(c, only), path)
  {
    hide LookUpFile;
    assert WILDCARD in Knowing(c, only).handlers;
    assert |Knowing(c, only).handlers| != 0;
  }

  lemma KnowsSplit(w: World, c: Config, only: string)
    requires Split(w, c, only)
    ensures Literal(w, Knowing(c, only), only) == "" && Accepts(w, Knowing(c, only), only)
  {
    hide LookUpFile;
    assert WILDCARD in Knowing(c, only).handlers;
    assert |Knowing(c, only).handlers| != 0;
  }

  lemma KnowingShape(c: Config, only: string)
    ensures SameShape(c, Knowing(c, only)) && NoEmptyAnswers(Knowing(c, only))
  {
  }

  lemma SplitShape(w: World, c: Config, d: Config, path: string)
    requires SameShape(c, d)
    ensures Split(w, c, path) <==> Split(w, d, path)
  {
  }

  lemma FirstIs(w: World, c: Config, cs: seq<string>, i: nat)
    requires i < |cs| && Accepts(w, c, cs[i]) && forall j :: 0 <= j < i ==> !Accepts(w, c, cs[j])
    ensures FirstAccepted(w, c, cs) == i
  {
  }

  lemma CandidatesUnfold(path: string)
    ensures Candidates(path) == Suffixes(Rebased(path), path)
  {
  }

  /** With a split candidate, some answers of the same callbacks, none of them empty, make the
      flag come without a path. */
  lemma SplitLosesPath(w: World, c: Config, path: string, i: nat)
    requires c.fallback && i < |Candidates(path)| && Split(w, c, Candidates(path)[i])
    ensures Resolution(w, Knowing(c, Candidates(path)[i]), path) == ("", true)
  {
    hide Accepts, Candidates, Literal, Knowing, Suffixes, Rebased;
    var cs := Candidates(path);
    var d := Knowing(c, cs[i]);
    assert d.fallback by { KnowingShape(c, cs[i]); }
    CandidatesUnfold(path);
    CandidatesAreTails(Rebased(path), path, cs[i]);
    CandidatesShrink(Rebased(path), path);
    KnowsNothingElse(w, c, cs[i], path);
    forall j | 0 <= j < i ensures !Accepts(w, d, cs[j]) {
      KnowsNothingElse(w, c, cs[i], cs[j]);
    }
    KnowsSplit(w, c, cs[i]);
    FirstIs(w, d, cs, i);
  }

  /** The flag can come without a path, however the same callbacks answer short of an empty path,
      exactly when some candidate is split. */
  lemma EmptyPathExactly(w: World, c: Config, path: string)
    requires c.fallback
    ensures var cs := Candidates(path);
      (exists d: Config :: SameShape(c, d) && NoEmptyAnswers(d) && Resolution(w, d, path) == ("", true)) <==>
      exists i :: 0 <= i < |cs| && Split(w, c, cs[i])
  {
    hide Resolution, Candidates, SameShape, NoEmptyAnswers, Split, Knowing;
    var cs := Candidates(path);
    if i :| 0 <= i < |cs| && Split(w, c, cs[i]) {
      SplitLosesPath(w, c, path, i);
      KnowingShape(c, cs[i]);
    } else {
      forall d: Config | SameShape(c, d) && NoEmptyAnswers(d) ensures Resolution(w, d, path) != ("", true) {
        forall i | 0 <= i < |cs| ensures !Split(w, d, cs[i]) {
          SplitShape(w, c, d, cs[i]);
        }
        FlagWithPath(w, d, path);
      }
    }
  }

  /** A handler that only resolves, beside a complete wildcard handler: the candidate is found
      by one and resolved to nothing by the other, so the flag comes with an empty path. */
  lemma FlagWithoutPath()
    ensures var ext := Handler(Some((p: string, s: seq<string>) => None), None);
      var any := Handler(Some((p: string, s: seq<string>) => Some(p)), Some((p: string) => Some(1)));
      var w := World(p => "usd", (p: string, s: seq<string>) => "");
      Resolution(w, Config(map["usd" := ext, WILDCARD := any], [], ".", true), "/b") == ("", true)
  {
    hide Candidates;
    var ext := Handler(Some((p: string, s: seq<string>) => None), None);
    var any := Handler(Some((p: string, s: seq<string>) => Some(p)), Some((p: string) => Some(1)));
    var w := World(p => "usd", (p: string, s: seq<string>) => "");
    var c := Config(map["usd" := ext, WILDCARD := any], [], ".", true);
    OneCandidate();
    assert "usd" != WILDCARD;
    assert !Complete(c, "usd") && Complete(c, WILDCARD);
    assert Literal(w, c, "/b") == "" && Literal(w, c, "b") == "";
    assert |c.handlers| != 0 by { assert "usd" in c.handlers; }
    assert HasContent(any, c, "b");
    assert Accepts(w, c, "b");
    assert FirstAccepted(w, c, ["b"]) == 0;
  }

  lemma OneCandidate()
    ensures Candidates("/b") == ["b"]
  {
    assert Slashes("/b") == "/b";
    assert StripLead("/b") == StripLead("b") == "b";
    assert FirstSlash("b") == 1;
  }
}
