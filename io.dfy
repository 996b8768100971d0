/** Reading graphs and hypergraphs. A line is cut into tokens the way a
    stream extracts strings: maximal runs of characters that are not
    white space. A graph file is in the DIMACS-like format of the PACE
    challenge ("p" header, "e a b" edge lines); a hypergraph file has one
    hyperedge per line, its vertices separated by commas or spaces.
    Vertex names are strings, numbered in their sorted order. */
module IoFormats {
  import opened Wrappers
  import opened Utils
  import opened GraphTheory
  import opened Graphs
  import opened HyperGraphs

  // ---------------------------------------------------------------------
  // Tokens

  /** The white-space characters of the C locale: space, tab, line feed,
      vertical tab, form feed and carriage return. */
  predicate IsSpace(c: char) {
    c == ' ' || ('\t' <= c <= '\r')
  }

  /** A non-empty string without white space. */
  ghost predicate IsWord(w: string) {
    |w| > 0 && forall i | 0 <= i < |w| :: !IsSpace(w[i])
  }

  /** The length of the white-space-free prefix of `s`. */
  function WordLen(s: string): (k: nat)
    ensures k <= |s| && (forall i | 0 <= i < k :: !IsSpace(s[i])) && (k < |s| ==> IsSpace(s[k]))
    decreases |s|
  {
    if s == [] || IsSpace(s[0]) then 0 else 1 + WordLen(s[1..])
  }

  /** The tokens of `s`, in order. */
  function Tokens(s: string): (r: seq<string>)
    ensures forall k | 0 <= k < |r| :: IsWord(r[k])
    decreases |s|
  {
    if s == [] then []
    else if IsSpace(s[0]) then Tokens(s[1..])
    else
      var k := WordLen(s);
      [s[..k]] + Tokens(s[k..])
  }

  /** The white-space-free prefix is determined by where the first white
      space is. */
  lemma {:induction false} WordLenIs(s: string, k: nat)
    requires k <= |s| && (forall i | 0 <= i < k :: !IsSpace(s[i])) && (k < |s| ==> IsSpace(s[k]))
    ensures WordLen(s) == k
  {
  }

  /** A string that starts with a word and a white space has that word as
      its first token. */
  lemma {:induction false} TokensOfWord(w: string, rest: string)
    requires IsWord(w)
    ensures Tokens(w + [' '] + rest) == [w] + Tokens(rest)
    ensures Tokens(w) == [w]
  {
    var s := w + [' '] + rest;
    WordLenIs(s, |w|);
    assert s[..|w|] == w;
    assert s[|w|..] == [' '] + rest;
    assert s[|w|..][1..] == rest;
    WordLenIs(w, |w|);
    assert w[..|w|] == w && w[|w|..] == [];
  }

  /** The words joined by single spaces. */
  function Joined(ws: seq<string>): (s: string)
    decreases |ws|
  {
    if ws == [] then [] else if |ws| == 1 then ws[0] else ws[0] + [' '] + Joined(ws[1..])
  }

  /** Joining words and cutting the result into tokens gives the words
      back. */
  lemma {:induction false} TokensJoined(ws: seq<string>)
    requires forall k | 0 <= k < |ws| :: IsWord(ws[k])
    ensures Tokens(Joined(ws)) == ws
    decreases |ws|
  {
    if |ws| == 1 {
      TokensOfWord(ws[0], []);
    } else if |ws| > 1 {
      TokensOfWord(ws[0], Joined(ws[1..]));
      TokensJoined(ws[1..]);
    }
  }

  /** The first token of a line that starts with a character other than
      white space, followed by a space, is that character. */
  lemma {:induction false} FirstToken(line: string)
    requires |line| >= 2 && !IsSpace(line[0]) && line[1] == ' '
    ensures |Tokens(line)| >= 1 && Tokens(line)[0] == line[..1]
  {
    WordLenIs(line, 1);
  }

  /** The tokens, as repeated extraction from a string stream reads them. */
  method GetTokens(s: string) returns (tokens: seq<string>)
    ensures tokens == Tokens(s)
  {
    tokens := [];
    var i := 0;
    while i < |s|
      invariant 0 <= i <= |s| && tokens + Tokens(s[i..]) == Tokens(s)
    {
      if IsSpace(s[i]) {
        assert s[i..][1..] == s[i + 1..];
        i := i + 1;
      } else {
        var j := TokenEnd(s, i);
        tokens := tokens + [s[i..j]];
        i := j;
      }
    }
    assert s[|s|..] == [];
  }

  /** The number of tokens, counted the same way. */
  method NumTokens(s: string) returns (num: nat)
    ensures num == |Tokens(s)|
  {
    num := 0;
    var i := 0;
    while i < |s|
      invariant 0 <= i <= |s| && num + |Tokens(s[i..])| == |Tokens(s)|
    {
      if IsSpace(s[i]) {
        assert s[i..][1..] == s[i + 1..];
        i := i + 1;
      } else {
        i := TokenEnd(s, i);
        num := num + 1;
      }
    }
    assert s[|s|..] == [];
  }

  /** Reads one token starting at `i`: the position after it, and the
      tokens from `i` on are that token followed by the tokens after it. */
  method TokenEnd(s: string, i: nat) returns (j: nat)
    requires i < |s| && !IsSpace(s[i])
    ensures i < j <= |s| && Tokens(s[i..]) == [s[i..j]] + Tokens(s[j..])
  {
    j := i;
    while j < |s| && !IsSpace(s[j])
      invariant i <= j <= |s| && forall k | i <= k < j :: !IsSpace(s[k])
    {
      j := j + 1;
    }
    WordLenIs(s[i..], j - i);
    assert s[i..][..j - i] == s[i..j];
    assert s[i..][j - i..] == s[j..];
  }

  // ---------------------------------------------------------------------
  // The graph format

  /** A line that starts a graph: "p " and at least three tokens. */
  ghost predicate IsHeader(line: string) {
    |line| >= 2 && line[..2] == "p " && |Tokens(line)| >= 3
  }

  /** An edge line: "e " and exactly three tokens. */
  ghost predicate IsEdgeLine(line: string) {
    |line| >= 2 && line[..2] == "e " && |Tokens(line)| == 3
  }

  /** What the lines read so far have given: the recorded edges (pairs of
      vertex names), and whether a header has been seen. */
  datatype Parsed = Parsed(edges: seq<(string, string)>, dimacs: bool)

  /** The lines read one after the other: a header forgets the edges read
      before it; an edge line after a header records its two names; every
      other line is skipped. */
  ghost function ParseLines(lines: seq<string>): Parsed
    decreases |lines|
  {
    if lines == [] then Parsed([], false)
    else
      var p := ParseLines(lines[..|lines| - 1]);
      var line := lines[|lines| - 1];
      if IsHeader(line) then Parsed([], true)
      else if p.dimacs && IsEdgeLine(line) then
        var tokens := Tokens(line);
        Parsed(p.edges + [(tokens[1], tokens[2])], true)
      else p
  }

  /** Edges are recorded only after a header: without a header, nothing
      is read. */
  lemma {:induction false} NoHeaderNoEdges(lines: seq<string>)
    requires forall i | 0 <= i < |lines| :: !IsHeader(lines[i])
    ensures ParseLines(lines) == Parsed([], false)
    decreases |lines|
  {
    if lines != [] {
      NoHeaderNoEdges(lines[..|lines| - 1]);
    }
  }

  /** A header restarts the graph: the lines before it are ignored. */
  lemma {:induction false} HeaderRestarts(pre: seq<string>, h: string, post: seq<string>)
    requires IsHeader(h)
    ensures ParseLines(pre + [h] + post) == ParseLines([h] + post)
    decreases |post|
  {
    if post == [] {
      assert (pre + [h] + post)[..|pre| + 1 - 1] == pre;
      assert ([h] + post)[..0] == [];
    } else {
      var last := post[|post| - 1];
      HeaderRestarts(pre, h, post[..|post| - 1]);
      assert (pre + [h] + post)[..|pre + [h] + post| - 1] == pre + [h] + post[..|post| - 1];
      assert ([h] + post)[..|[h] + post| - 1] == [h] + post[..|post| - 1];
    }
  }

  /** The line "e a b" of an edge. */
  function EdgeLine(e: (string, string)): string {
    Joined(["e", e.0, e.1])
  }

  /** A graph written in the format: the header "p tw n m" and one edge
      line per edge. */
  function FormatGraph(n: string, m: string, es: seq<(string, string)>): (lines: seq<string>)
    ensures |lines| == |es| + 1
    decreases |es|
  {
    if es == [] then [Joined(["p", "tw", n, m])]
    else FormatGraph(n, m, es[..|es| - 1]) + [EdgeLine(es[|es| - 1])]
  }

  /** The header line of a written graph is read as a header. */
  lemma {:induction false} HeaderLineRead(n: string, m: string)
    requires IsWord(n) && IsWord(m)
    ensures IsHeader(Joined(["p", "tw", n, m]))
  {
    var h := Joined(["p", "tw", n, m]);
    TokensJoined(["p", "tw", n, m]);
    assert h == "p" + [' '] + Joined(["tw", n, m]);
    assert h[..2] == "p ";
  }

  /** The line of an edge is read as that edge's line, and not as a
      header. */
  lemma {:induction false} EdgeLineRead(e: (string, string))
    requires IsWord(e.0) && IsWord(e.1)
    ensures IsEdgeLine(EdgeLine(e)) && !IsHeader(EdgeLine(e)) && Tokens(EdgeLine(e)) == ["e", e.0, e.1]
  {
    var line := EdgeLine(e);
    TokensJoined(["e", e.0, e.1]);
    assert line == "e" + [' '] + Joined([e.0, e.1]);
    assert line[..2] == "e ";
  }

  /** Names without white space survive writing and reading: the edges
      read from a written graph are the edges written. */
  lemma {:induction false} FormatThenParse(n: string, m: string, es: seq<(string, string)>)
    requires IsWord(n) && IsWord(m)
    requires forall k | 0 <= k < |es| :: IsWord(es[k].0) && IsWord(es[k].1)
    ensures ParseLines(FormatGraph(n, m, es)) == Parsed(es, true)
    decreases |es|
  {
    var lines := FormatGraph(n, m, es);
    if es == [] {
      HeaderLineRead(n, m);
      assert lines[..0] == [];
    } else {
      var e := es[|es| - 1];
      FormatThenParse(n, m, es[..|es| - 1]);
      EdgeLineRead(e);
      assert lines[..|lines| - 1] == FormatGraph(n, m, es[..|es| - 1]);
      assert es[..|es| - 1] + [e] == es;
    }
  }

  /** Both names of every recorded edge, in order. */
  function NameEndpoints(es: seq<(string, string)>): (r: seq<string>)
    ensures forall x :: x in r <==> exists k | 0 <= k < |es| :: es[k].0 == x || es[k].1 == x
    decreases |es|
  {
    if es == [] then []
    else
      var r := NameEndpoints(es[..|es| - 1]) + [es[|es| - 1].0, es[|es| - 1].1];
      assert forall k | 0 <= k < |es| - 1 :: es[..|es| - 1][k] == es[k];
      r
  }

  /** Names `a` and `b` are the two ends of a recorded edge. */
  ghost predicate NamesJoined(es: seq<(string, string)>, a: string, b: string) {
    exists k | 0 <= k < |es| :: (es[k].0 == a && es[k].1 == b) || (es[k].0 == b && es[k].1 == a)
  }

  /** Some recorded edge joins a name to itself. */
  ghost predicate HasSelfLoop(es: seq<(string, string)>) {
    exists k | 0 <= k < |es| :: es[k].0 == es[k].1
  }

  // ---------------------------------------------------------------------
  // The hypergraph format

  /** The line with every comma turned into a space. */
  method SpaceCommas(line: string) returns (r: string)
    ensures |r| == |line| && forall i | 0 <= i < |line| :: r[i] == if line[i] == ',' then ' ' else line[i]
  {
    r := line;
    for i := 0 to |r|
      invariant |r| == |line|
      invariant forall k | 0 <= k < |line| :: r[k] == if k < i && line[k] == ',' then ' ' else line[k]
    {
      if r[i] == ',' {
        r := r[i := ' '];
      }
    }
  }

  /** The vertex names on a hypergraph line: its tokens once commas are
      read as spaces. */
  ghost function LineNames(line: string): seq<string> {
    Tokens(seq(|line|, i requires 0 <= i < |line| => if line[i] == ',' then ' ' else line[i]))
  }

  /** The names of all lines, line after line. */
  ghost function AllNames(lines: seq<string>): (r: seq<string>)
    ensures forall x :: x in r <==> exists k | 0 <= k < |lines| :: x in LineNames(lines[k])
    decreases |lines|
  {
    if lines == [] then []
    else
      var r := AllNames(lines[..|lines| - 1]) + LineNames(lines[|lines| - 1]);
      assert forall k | 0 <= k < |lines| - 1 :: lines[..|lines| - 1][k] == lines[k];
      r
  }

  /** Names of the same line are joined in the primal graph. */
  ghost predicate OnOneLine(lines: seq<string>, a: string, b: string) {
    exists k | 0 <= k < |lines| :: a in LineNames(lines[k]) && b in LineNames(lines[k])
  }

  // ---------------------------------------------------------------------
  // The reader

  class Io {
    /** Whether the last graph read had a header. */
    var dimacs: bool
    /** The vertex names of the last graph read, in sorted order; vertex
        `i` is `vertexMap.values[i]`. */
    var vertexMap: StaticSet<string>

    constructor()
      ensures !dimacs && vertexMap.values == []
    {
      dimacs := false;
      vertexMap := StaticSet([]);
    }

    /** Reads a graph from its lines. An empty line stops the program, and
        so does an edge from a vertex to itself. The names of the recorded
        edges, sorted, become the vertices. */
    method ReadGraph(lines: seq<string>) returns (r: Outcome<Graph>)
      modifies this
      ensures r.Abort? <==> (exists i | 0 <= i < |lines| :: lines[i] == []) || HasSelfLoop(ParseLines(lines).edges)
      ensures r.Done? ==> dimacs == ParseLines(lines).dimacs
      ensures r.Done? ==> (StrictTotalOrder(StringLess) &&
        vertexMap.values == SortAndDedup(NameEndpoints(ParseLines(lines).edges), StringLess))
      ensures r.Done? ==> fresh(r.value) && r.value.Valid() && r.value.n == |vertexMap.values|
      ensures r.Done? ==> forall a, b | 0 <= a < r.value.n && 0 <= b < r.value.n ::
        Adjacent(r.value.adjList, a, b) <==> NamesJoined(ParseLines(lines).edges, vertexMap.values[a], vertexMap.values[b])
    {
      dimacs := false;
      var scanned := ScanLines(lines);
      if scanned.Abort? {
        return Abort;
      }
      var edges := scanned.value.edges;
      dimacs := scanned.value.dimacs;
      StringLessOrder();
      vertexMap := StaticSet(SortAndDedup(NameEndpoints(edges), StringLess));
      SortedDistinct(vertexMap.values);
      assert forall k | 0 <= k < |edges| :: edges[k].0 in NameEndpoints(edges) && edges[k].1 in NameEndpoints(edges);
      r := BuildGraph(edges, vertexMap.values);
    }

    /** Reads a hypergraph: each line is a hyperedge (an empty line an
        empty one) whose names are separated by commas or white space; the
        names of all lines, sorted, become the vertices. */
    method ReadHyperGraph(lines: seq<string>) returns (h: HyperGraph)
      modifies this
      ensures StrictTotalOrder(StringLess) && vertexMap.values == SortAndDedup(AllNames(lines), StringLess)
      ensures fresh(h) && fresh(h.primal) && h.Valid() && h.primal.n == |vertexMap.values| && |h.edges| == |lines|
      ensures forall k | 0 <= k < |lines| :: forall v :: v in h.edges[k] <==> 0 <= v < h.primal.n && vertexMap.values[v] in LineNames(lines[k])
      ensures forall a, b | 0 <= a < h.primal.n && 0 <= b < h.primal.n ::
        Adjacent(h.primal.adjList, a, b) <==> a != b && OnOneLine(lines, vertexMap.values[a], vertexMap.values[b])
    {
      StringLessOrder();
      var vertices: seq<string> := [];
      var edges: seq<seq<string>> := [];
      for i := 0 to |lines|
        invariant vertices == AllNames(lines[..i]) && |edges| == i
        invariant forall k | 0 <= k < i :: forall x :: x in edges[k] <==> x in LineNames(lines[k])
      {
        var line := SpaceCommas(lines[i]);
        assert line == seq(|lines[i]|, j requires 0 <= j < |lines[i]| => if lines[i][j] == ',' then ' ' else lines[i][j]);
        var te := GetTokens(line);
        assert lines[..i + 1][..i] == lines[..i] && lines[..i + 1][i] == lines[i];
        vertices := vertices + te;
        edges := edges + [SortAndDedup(te, StringLess)];
      }
      assert lines[..|lines|] == lines;
      vertexMap := StaticSet(SortAndDedup(vertices, StringLess));
      SortedDistinct(vertexMap.values);
      h := BuildHyperGraph(edges, vertexMap.values);
      forall k | 0 <= k < |lines| ensures forall v :: v in h.edges[k] <==> 0 <= v < h.primal.n && vertexMap.values[v] in LineNames(lines[k]) {
      }
      forall a, b | 0 <= a < h.primal.n && 0 <= b < h.primal.n
        ensures Adjacent(h.primal.adjList, a, b) <==> a != b && OnOneLine(lines, vertexMap.values[a], vertexMap.values[b])
      {
        if a != b && OnOneLine(lines, vertexMap.values[a], vertexMap.values[b]) {
          var k :| 0 <= k < |lines| && vertexMap.values[a] in LineNames(lines[k]) && vertexMap.values[b] in LineNames(lines[k]);
          assert vertexMap.values[a] in edges[k] && vertexMap.values[b] in edges[k];
        }
      }
    }
  }

  /** The loop of ReadGraph over the lines: an empty line stops the
      program; otherwise the lines give the recorded edges and whether a
      header was seen. */
  method ScanLines(lines: seq<string>) returns (r: Outcome<Parsed>)
    ensures r.Abort? <==> exists i | 0 <= i < |lines| :: lines[i] == []
    ensures r.Done? ==> r.value == ParseLines(lines)
  {
    var edges: seq<(string, string)> := [];
    var dimacs := false;
    for i := 0 to |lines|
      invariant ParseLines(lines[..i]) == Parsed(edges, dimacs)
      invariant forall k | 0 <= k < i :: lines[k] != []
    {
      var line := lines[i];
      assert lines[..i + 1][..i] == lines[..i] && lines[..i + 1][i] == line;
      if line == [] {
        return Abort;
      }
      var isHeader := false;
      if |line| >= 2 && line[..2] == "p " {
        var num := NumTokens(line);
        isHeader := num >= 3;
      }
      var isEdge := false;
      if !isHeader && dimacs && |line| >= 2 && line[..2] == "e " {
        var num := NumTokens(line);
        isEdge := num == 3;
      }
      if isHeader {
        edges := [];
        dimacs := true;
      } else if isEdge {
        var tokens := GetTokens(line);
        FirstToken(line);
        assert tokens[0] == "e";
        edges := edges + [(tokens[1], tokens[2])];
      }
    }
    assert lines[..|lines|] == lines;
    r := Done(Parsed(edges, dimacs));
  }

  /** The graph on the names `vm` (sorted, so without repeats) with an edge
      per recorded edge, each added by the ranks (positions in `vm`) of its
      names; a recorded edge from a name to itself stops the program. */
  method BuildGraph(edges: seq<(string, string)>, vm: seq<string>) returns (r: Outcome<Graph>)
    requires Distinct(vm) && forall k | 0 <= k < |edges| :: edges[k].0 in vm && edges[k].1 in vm
    ensures r.Abort? <==> HasSelfLoop(edges)
    ensures r.Done? ==> fresh(r.value) && r.value.Valid() && r.value.n == |vm|
    ensures r.Done? ==> forall a, b | 0 <= a < |vm| && 0 <= b < |vm| ::
      Adjacent(r.value.adjList, a, b) <==> NamesJoined(edges, vm[a], vm[b])
  {
    var g := new Graph(|vm|);
    for i := 0 to |edges|
      invariant GraphBuilt(g, vm, edges, i)
    {
      var ok := AddNamedEdge(g, vm, edges, i);
      if !ok {
        assert HasSelfLoop(edges);
        return Abort;
      }
    }
    assert edges[..|edges|] == edges;
    r := Done(g);
  }

  /** The graph on the names `vm` has exactly the first `i` recorded edges,
      none of which is a self-loop. */
  ghost predicate GraphBuilt(g: Graph, vm: seq<string>, edges: seq<(string, string)>, i: int)
    reads g
  {
    0 <= i <= |edges| && g.Valid() && g.n == |vm| &&
    (forall k | 0 <= k < i :: edges[k].0 != edges[k].1) &&
    forall a, b | 0 <= a < |vm| && 0 <= b < |vm| ::
      Adjacent(g.adjList, a, b) <==> NamesJoined(edges[..i], vm[a], vm[b])
  }

  /** Adds recorded edge `i` by the ranks of its names; false (the program
      stops) when both names are the same. */
  method AddNamedEdge(g: Graph, vm: seq<string>, edges: seq<(string, string)>, i: int) returns (ok: bool)
    requires Distinct(vm) && 0 <= i < |edges| && edges[i].0 in vm && edges[i].1 in vm
    requires GraphBuilt(g, vm, edges, i)
    modifies g
    ensures ok <==> edges[i].0 != edges[i].1
    ensures ok ==> GraphBuilt(g, vm, edges, i + 1)
  {
    var e := edges[i];
    var v := IndexOf(vm, e.0);
    var u := IndexOf(vm, e.1);
    if v == u {
      return false;
    }
    g.AddEdge(v, u);
    forall a, b | 0 <= a < |vm| && 0 <= b < |vm|
      ensures Adjacent(g.adjList, a, b) <==> NamesJoined(edges[..i + 1], vm[a], vm[b])
    {
      NamesJoinedStep(edges, i, vm[a], vm[b]);
    }
    ok := true;
  }

  /** Recording one more edge joins its two names. */
  lemma {:induction false} NamesJoinedStep(es: seq<(string, string)>, i: nat, a: string, b: string)
    requires i < |es|
    ensures NamesJoined(es[..i + 1], a, b) <==>
      NamesJoined(es[..i], a, b) || (es[i].0 == a && es[i].1 == b) || (es[i].0 == b && es[i].1 == a)
  {
    if NamesJoined(es[..i + 1], a, b) {
      var k :| 0 <= k < i + 1 && ((es[..i + 1][k].0 == a && es[..i + 1][k].1 == b) || (es[..i + 1][k].0 == b && es[..i + 1][k].1 == a));
      if k < i {
        assert es[..i][k] == es[k];
      }
    }
    if NamesJoined(es[..i], a, b) {
      var k :| 0 <= k < i && ((es[..i][k].0 == a && es[..i][k].1 == b) || (es[..i][k].0 == b && es[..i][k].1 == a));
      assert es[..i + 1][k] == es[k];
    }
    assert es[..i + 1][i] == es[i];
  }

  /** The hypergraph on the names `vm` (sorted, so without repeats) with a
      hyperedge per list of names, each added as the ranks of its names. */
  method BuildHyperGraph(edges: seq<seq<string>>, vm: seq<string>) returns (h: HyperGraph)
    requires Distinct(vm) && forall k, x | 0 <= k < |edges| && x in edges[k] :: x in vm
    ensures fresh(h) && fresh(h.primal) && h.Valid() && h.primal.n == |vm| && |h.edges| == |edges|
    ensures forall k | 0 <= k < |edges| :: forall v :: v in h.edges[k] <==> 0 <= v < |vm| && vm[v] in edges[k]
    ensures forall a, b | 0 <= a < |vm| && 0 <= b < |vm| ::
      Adjacent(h.primal.adjList, a, b) <==> a != b && exists k | 0 <= k < |edges| :: vm[a] in edges[k] && vm[b] in edges[k]
  {
    h := new HyperGraph(|vm|);
    for i := 0 to |edges|
      invariant fresh(h.primal) && HyperBuilt(h, vm, edges, i)
    {
      var e := Ranks(vm, edges[i]);
      AddRankedEdge(h, vm, edges, i, e);
    }
  }

  /** The hypergraph on the names `vm` has exactly the first `i` lists of
      names as its hyperedges, and its primal graph joins two vertices
      exactly when one of those lists names both. */
  ghost predicate HyperBuilt(h: HyperGraph, vm: seq<string>, edges: seq<seq<string>>, i: int)
    reads h, h.primal
  {
    0 <= i <= |edges| && h.Valid() && h.primal.n == |vm| && |h.edges| == i &&
    (forall k | 0 <= k < i :: forall v :: v in h.edges[k] <==> 0 <= v < |vm| && vm[v] in edges[k]) &&
    forall a, b | 0 <= a < |vm| && 0 <= b < |vm| ::
      Adjacent(h.primal.adjList, a, b) <==> a != b && exists k | 0 <= k < i :: vm[a] in edges[k] && vm[b] in edges[k]
  }

  /** Adds the ranks `e` of list `i` as a hyperedge. */
  method AddRankedEdge(h: HyperGraph, vm: seq<string>, edges: seq<seq<string>>, i: int, e: seq<int>)
    requires 0 <= i < |edges| && HyperBuilt(h, vm, edges, i)
    requires forall q | 0 <= q < |e| :: 0 <= e[q] < |vm|
    requires forall v | 0 <= v < |vm| :: v in e <==> vm[v] in edges[i]
    modifies h, h.primal
    ensures h.primal == old(h.primal) && HyperBuilt(h, vm, edges, i + 1)
  {
    h.AddEdge(e);
  }

  /** The rank of every name of the list, in order; a rank is in the list
      exactly when its name is. */
  method Ranks(vm: seq<string>, names: seq<string>) returns (e: seq<int>)
    requires Distinct(vm) && forall x | x in names :: x in vm
    ensures |e| == |names| && forall q | 0 <= q < |names| :: 0 <= e[q] < |vm| && vm[e[q]] == names[q]
    ensures forall v | 0 <= v < |vm| :: v in e <==> vm[v] in names
  {
    e := [];
    for j := 0 to |names|
      invariant |e| == j && forall q | 0 <= q < j :: 0 <= e[q] < |vm| && vm[e[q]] == names[q]
    {
      var rank := IndexOf(vm, names[j]);
      e := e + [rank];
    }
    forall v | 0 <= v < |vm| ensures v in e <==> vm[v] in names {
      if vm[v] in names {
        var q :| 0 <= q < |names| && names[q] == vm[v];
        assert vm[e[q]] == vm[v];
      }
    }
  }

  /** A strictly sorted list of names has no repeats. */
  lemma {:induction false} SortedDistinct(vm: seq<string>)
    requires StrictTotalOrder(StringLess) && StrictlySorted(vm, StringLess)
    ensures Distinct(vm)
  {
    forall i, j | 0 <= i < j < |vm| ensures vm[i] != vm[j] {
      assert StringLess(vm[i], vm[j]);
    }
  }
}
