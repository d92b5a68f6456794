/** The shorter forms under which a path authored on another machine is tried
    (src/io-util.cc, AssetPathSuffixCandidates). */
module SuffixCandidates {
  import opened Chars

  function Slashes(p: string): (q: string)
    ensures |q| == |p|
  {
    seq(|p|, i requires 0 <= i < |p| => if p[i] == '\\' then '/' else p[i])
  }

  predicate HasDrive(p: string) { |p| >= 2 && IsLetter(p[0]) && p[1] == ':' }

  /** Without leading `/`, `./` and `../`. */
  function StripLead(p: string): string {
    if p != "" && p[0] == '/' then StripLead(p[1..])
    else if |p| >= 2 && p[..2] == "./" then StripLead(p[2..])
    else if |p| >= 3 && p[..3] == "../" then StripLead(p[3..])
    else p
  }

  function Rebased(path: string): string {
    var p := Slashes(path);
    StripLead(if HasDrive(p) then p[2..] else p)
  }

  /** Position of the first slash, or the length. */
  function FirstSlash(p: string): (k: nat)
    ensures k <= |p| && (k < |p| ==> p[k] == '/') && forall i :: 0 <= i < k ==> p[i] != '/'
  {
    if p == "" || p[0] == '/' then 0 else 1 + FirstSlash(p[1..])
  }

  function Suffixes(p: string, path: string): seq<string>
    decreases |p|
  {
    if p == "" then []
    else
      var k := FirstSlash(p);
      (if p != path then [p] else []) + if k < |p| then Suffixes(p[k + 1..], path) else []
  }

  function Candidates(path: string): seq<string> {
    Suffixes(Rebased(path), path)
  }

  method FindCandidates(path: string) returns (candidates: seq<string>)
    ensures candidates == Candidates(path)
  {
    hide Suffixes, StripLead, Candidates, Slashes;
    if path == "" {
      NothingRebased();
      return [];
    }
    var p := Slashes(path);
    RebasedIs(path);
    if HasDrive(p) {
      p := p[2..];
    }
    p := StripLeadingDirectories(p);
    candidates := Shorten(p, path);
  }

  method StripLeadingDirectories(p: string) returns (rest: string)
    ensures rest == StripLead(p)
  {
    hide StripLead;
    var pos := 0;
    assert p[0..] == p;
    while pos < |p|
      invariant 0 <= pos <= |p| && StripLead(p[pos..]) == StripLead(p)
    {
      LeadAt(p, pos);
      if p[pos] == '/' {
        pos := pos + 1;
      } else if pos + 2 <= |p| && p[pos..pos + 2] == "./" {
        pos := pos + 2;
      } else if pos + 3 <= |p| && p[pos..pos + 3] == "../" {
        pos := pos + 3;
      } else {
        break;
      }
    }
    LeadDone(p, pos);
    rest := p[pos..];
  }

  method Shorten(start: string, path: string) returns (candidates: seq<string>)
    ensures candidates == Suffixes(start, path)
  {
    hide Suffixes;
    candidates := [];
    var p := start;
    while p != ""
      invariant candidates + Suffixes(p, path) == Suffixes(start, path)
      decreases |p|
    {
      SuffixStep(p, path);
      if p != path {
        candidates := candidates + [p];
      }
      var k := FirstSlash(p);
      if k == |p| {
        p := "";
      } else {
        p := p[k + 1..];
      }
    }
    NoSuffix(path);
  }

  lemma RebasedIs(path: string)
    ensures var p := Slashes(path); Candidates(path) == Suffixes(StripLead(if HasDrive(p) then p[2..] else p), path)
  {
  }

  lemma NothingRebased()
    ensures Candidates("") == []
  {
  }

  lemma LeadAt(p: string, pos: nat)
    requires pos < |p|
    ensures StripLead(p[pos..]) ==
      if p[pos] == '/' then StripLead(p[pos + 1..])
      else if pos + 2 <= |p| && p[pos..pos + 2] == "./" then StripLead(p[pos + 2..])
      else if pos + 3 <= |p| && p[pos..pos + 3] == "../" then StripLead(p[pos + 3..])
      else p[pos..]
  {
  }

  lemma LeadDone(p: string, pos: nat)
    requires pos <= |p|
    requires pos < |p| ==> p[pos] != '/'
    requires pos + 2 <= |p| ==> p[pos..pos + 2] != "./"
    requires pos + 3 <= |p| ==> p[pos..pos + 3] != "../"
    ensures StripLead(p[pos..]) == p[pos..]
  {
  }

  lemma {:induction false} SuffixStep(p: string, path: string)
    requires p != ""
    ensures var k := FirstSlash(p);
      Suffixes(p, path) ==
      (if p != path then [p] else []) + if k < |p| then Suffixes(p[k + 1..], path) else Suffixes("", path)
  {
  }

  lemma {:induction false} NoSuffix(path: string)
    ensures Suffixes("", path) == []
  {
  }

  /** Starts at the root or with a step to this or the parent directory. */
  predicate HasLead(p: string) {
    (p != "" && p[0] == '/') || (|p| >= 2 && p[..2] == "./") || (|p| >= 3 && p[..3] == "../")
  }

  /** Stripping leaves the longest tail, at any character, that starts with no `/`, `./` or
      `../`. */
  lemma {:induction false} StripLeavesLongest(p: string)
    ensures |StripLead(p)| <= |p| && StripLead(p) == p[|p| - |StripLead(p)|..] && !HasLead(StripLead(p))
    ensures forall j :: 0 <= j < |p| - |StripLead(p)| ==> HasLead(p[j..])
    decreases |p|
  {
    if HasLead(p) {
      var n := if p[0] == '/' then 1 else if p[..2] == "./" then 2 else 3;
      StripLeavesLongest(p[n..]);
      LeadsInside(p, n);
      forall j | n <= j < |p| - |StripLead(p)| ensures HasLead(p[j..]) {
        assert p[j..] == p[n..][j - n..];
      }
    }
  }

  lemma LeadsInside(p: string, n: nat)
    requires HasLead(p) && n == if p[0] == '/' then 1 else if p[..2] == "./" then 2 else 3
    ensures StripLead(p) == StripLead(p[n..]) && forall j :: 0 <= j < n ==> HasLead(p[j..])
  {
    assert n == 3 ==> p[..3][0] == '.' && p[..3][1] == '.' && p[..3][2] == '/';
    assert n == 2 ==> p[..2][0] == '.' && p[..2][1] == '/';
  }

  /** A path is rebased to the longest tail, of what stands behind its drive with slashes for
      backslashes, that starts with no `/`, `./` or `../`. */
  lemma RebasedIsLongest(path: string) returns (p: string, q: string)
    ensures |p| == |path| && forall i :: 0 <= i < |p| ==> p[i] == if path[i] == '\\' then '/' else path[i]
    ensures q == if |p| >= 2 && (p[0] in CAPITALS || p[0] in SMALL) && p[1] == ':' then p[2..] else p
    ensures var r := Rebased(path);
      |r| <= |q| && r == q[|q| - |r|..] && !HasLead(r) && forall j :: 0 <= j < |q| - |r| ==> HasLead(q[j..])
  {
    p := Slashes(path);
    q := if HasDrive(p) then p[2..] else p;
    if |p| >= 2 {
      CapitalsAre(p[0]);
      SmallAre(p[0]);
    }
    StripLeavesLongest(q);
  }

  /** `c` is what is left of `p` from the start or from behind a slash. */
  ghost predicate Tail(p: string, c: string) {
    c == p || exists i :: 0 <= i < |p| && p[i] == '/' && c == p[i + 1..]
  }

  lemma TailBehind(p: string, k: nat, c: string)
    requires k < |p| && p[k] == '/' && forall i :: 0 <= i < k ==> p[i] != '/'
    ensures Tail(p, c) <==> c == p || Tail(p[k + 1..], c)
  {
  }

  /** The candidates are exactly the nonempty tails of the rebased path other than the path
      itself. */
  lemma {:induction false} CandidatesAreTails(p: string, path: string, c: string)
    ensures c in Suffixes(p, path) <==> c != "" && c != path && Tail(p, c)
    decreases |p|
  {
    if p != "" {
      var k := FirstSlash(p);
      if k < |p| {
        TailBehind(p, k, c);
        CandidatesAreTails(p[k + 1..], path, c);
      }
    }
  }

  /** Longest first. */
  lemma {:induction false} CandidatesShrink(p: string, path: string)
    ensures forall i :: 0 <= i < |Suffixes(p, path)| ==> |Suffixes(p, path)[i]| <= |p|
    ensures forall i, j :: 0 <= i < j < |Suffixes(p, path)| ==> |Suffixes(p, path)[j]| < |Suffixes(p, path)[i]|
    decreases |p|
  {
    if p != "" {
      var k := FirstSlash(p);
      if k < |p| {
        CandidatesShrink(p[k + 1..], path);
      }
    }
  }

  /** The candidates of a path: exactly the nonempty tails of what it is rebased to, other than the
      path itself, each once, longest first. */
  lemma CandidatesExactly(path: string, c: string)
    ensures c in Candidates(path) <==> c != "" && c != path && Tail(Rebased(path), c)
    ensures forall i, j :: 0 <= i < j < |Candidates(path)| ==> |Candidates(path)[j]| < |Candidates(path)[i]|
  {
    hide Suffixes, Rebased;
    CandidatesAreTails(Rebased(path), path, c);
    CandidatesShrink(Rebased(path), path);
  }
}
