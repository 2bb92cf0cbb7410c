/** Escape networks in text (`EscapeNetworkMapper`, `Display`): the
    sections of a network separated by `;`. */
module NetworkText {
  import opened Wrappers
  import opened Edges
  import D = Decimal
  import Text
  import G = Graphs
  import N = Networks
  import S = Sections

  const Delimiter: char := ';'

  /** Why `EscapeNetworkMapper` refuses a text. */
  datatype ParseError =
    | MalformedNetwork                  // the text starts or ends with `;`
    | BadSection(S.SectionError)        // a piece is not a section
    | DuplicateEdge(Edge)               // two pieces give the same edge
    | InvalidNetwork(N.NetworkError)    // the sections do not form a network

  /** The pieces read one by one; the reading of one piece does not
      depend on the others. */
  function ReadAll(pieces: seq<string>): (r: seq<Result<S.Section, S.SectionError>>)
    ensures |r| == |pieces| && forall i | 0 <= i < |pieces| :: r[i] == S.ParseSection(pieces[i])
    ensures forall i | 0 <= i < |pieces| :: r[i].Ok? ==> S.Printable(r[i].value)
  {
    seq(|pieces|, i requires 0 <= i < |pieces| => S.ParseSection(pieces[i]))
  }

  /** Every piece was read as a section. */
  predicate AllSections(parsed: seq<Result<S.Section, S.SectionError>>)
  {
    forall i | 0 <= i < |parsed| :: parsed[i].Ok?
  }

  /** No two sections have the same edge. */
  predicate DistinctEdges(parsed: seq<Result<S.Section, S.SectionError>>)
    requires AllSections(parsed)
  {
    forall i, j | 0 <= i < j < |parsed| :: parsed[i].value.edge != parsed[j].value.edge
  }

  /** The edges of the sections. */
  function EdgesOf(parsed: seq<Result<S.Section, S.SectionError>>): set<Edge>
    requires AllSections(parsed)
  {
    set i | 0 <= i < |parsed| :: parsed[i].value.edge
  }

  /** The loop of `EscapeNetworkMapper.apply` over the pieces: take each
      piece's section, refuse an edge met before, and record the edge's
      capacity; the first failing piece names the error. */
  function Collect(parsed: seq<Result<S.Section, S.SectionError>>, acc: map<Edge, int>): (r: Result<map<Edge, int>, ParseError>)
    ensures r.Err? ==> r.error.BadSection? || r.error.DuplicateEdge?
    decreases |parsed|
  {
    if parsed == [] then Ok(acc)
    else
      match parsed[0]
      case Err(e) => Err(BadSection(e))
      case Ok(sec) =>
        if sec.edge in acc then Err(DuplicateEdge(sec.edge))
        else Collect(parsed[1..], acc[sec.edge := sec.capacity])
  }

  /** The conditions under which the loop gets through every piece. */
  predicate Collectable(parsed: seq<Result<S.Section, S.SectionError>>, acc: map<Edge, int>)
  {
    AllSections(parsed) && DistinctEdges(parsed)
    && forall i | 0 <= i < |parsed| :: parsed[i].value.edge !in acc
  }

  /** The loop succeeds exactly when every piece is a section and no edge
      repeats or was already recorded. */
  lemma {:induction false} CollectOk(parsed: seq<Result<S.Section, S.SectionError>>, acc: map<Edge, int>)
    ensures Collect(parsed, acc).Ok? <==> Collectable(parsed, acc)
    decreases |parsed|
  {
    if parsed != [] {
      var tail := parsed[1..];
      assert forall i | 0 <= i < |tail| :: tail[i] == parsed[i + 1];
      if parsed[0].Ok? {
        var sec := parsed[0].value;
        CollectOk(tail, acc[sec.edge := sec.capacity]);
      }
    }
  }

  /** What the loop records: the entries it started with, and one entry
      per section with that section's capacity. */
  lemma {:induction false} CollectValue(parsed: seq<Result<S.Section, S.SectionError>>, acc: map<Edge, int>)
    requires Collect(parsed, acc).Ok?
    ensures AllSections(parsed)
    ensures var m := Collect(parsed, acc).value;
      && m.Keys == acc.Keys + EdgesOf(parsed)
      && (forall e | e in acc :: m[e] == acc[e])
      && (forall i | 0 <= i < |parsed| :: m[parsed[i].value.edge] == parsed[i].value.capacity)
    decreases |parsed|
  {
    CollectOk(parsed, acc);
    if parsed != [] {
      var tail := parsed[1..];
      assert forall i | 0 <= i < |tail| :: tail[i] == parsed[i + 1];
      var sec := parsed[0].value;
      CollectValue(tail, acc[sec.edge := sec.capacity]);
      assert EdgesOf(parsed) == {sec.edge} + EdgesOf(tail) by {
        forall e | e in EdgesOf(parsed) ensures e in {sec.edge} + EdgesOf(tail) {
          var i :| 0 <= i < |parsed| && parsed[i].value.edge == e;
          if i > 0 {
            assert tail[i - 1].value.edge == e;
          }
        }
      }
    }
  }

  /** The endpoints of the edges. */
  function Endpoints(edges: set<Edge>): (r: set<Vertex>)
    ensures G.Valid(G.Graph(r, edges))
  {
    (set e | e in edges :: e.from) + (set e | e in edges :: e.to)
  }

  /** The capacity of each section's edge. */
  function CapacitiesOf(parsed: seq<Result<S.Section, S.SectionError>>): (caps: map<Edge, int>)
    requires AllSections(parsed) && DistinctEdges(parsed)
    ensures caps.Keys == EdgesOf(parsed)
    ensures forall i | 0 <= i < |parsed| :: caps[parsed[i].value.edge] == parsed[i].value.capacity
  {
    map i | 0 <= i < |parsed| :: parsed[i].value.edge := parsed[i].value.capacity
  }

  /** The network the sections describe: their edges over the edges'
      endpoints, with the sections' capacities. */
  function Assemble(parsed: seq<Result<S.Section, S.SectionError>>): N.Network
    requires AllSections(parsed) && DistinctEdges(parsed)
  {
    N.Network(G.Graph(Endpoints(EdgesOf(parsed)), EdgesOf(parsed)), CapacitiesOf(parsed))
  }

  /** When the loop gets through every piece, it has recorded exactly the
      capacities of the sections. */
  lemma Collected(parsed: seq<Result<S.Section, S.SectionError>>)
    requires Collect(parsed, map[]).Ok?
    ensures AllSections(parsed) && DistinctEdges(parsed)
    ensures Collect(parsed, map[]).value == CapacitiesOf(parsed)
  {
    CollectOk(parsed, map[]);
    CollectValue(parsed, map[]);
  }

  /** The text starts or ends with the delimiter. */
  predicate BadEnds(s: string)
  {
    |s| > 0 && (s[0] == Delimiter || s[|s| - 1] == Delimiter)
  }

  /** `EscapeNetworkMapper.apply`: refuse a text that starts or ends with
      the delimiter, read the pieces between delimiters, and build the
      network of the recorded edges over their endpoints. */
  function ParseNetwork(s: string): (r: Result<N.Network, ParseError>)
    ensures r == Err(MalformedNetwork) <==> BadEnds(s)
    ensures var parsed := ReadAll(Text.Split(s, Delimiter));
      r.Ok? <==> !BadEnds(s) && AllSections(parsed) && DistinctEdges(parsed) && N.Valid(Assemble(parsed))
    ensures var parsed := ReadAll(Text.Split(s, Delimiter));
      r.Ok? ==> AllSections(parsed) && DistinctEdges(parsed) && r.value == Assemble(parsed)
    ensures r.Ok? ==> Printable(r.value)
  {
    if BadEnds(s) then Err(MalformedNetwork)
    else
      var parsed := ReadAll(Text.Split(s, Delimiter));
      CollectOk(parsed, map[]);
      match Collect(parsed, map[])
      case Err(e) => Err(e)
      case Ok(capacities) =>
        Collected(parsed);
        var g := G.Create(Endpoints(capacities.Keys), capacities.Keys).value;
        match N.Create(g, capacities)
        case Err(e) => Err(InvalidNetwork(e))
        case Ok(n) =>
          AssemblePrintable(parsed);
          Ok(n)
  }

  /** Sections as the parser produces them assemble into a network with
      valid vertex names, positive capacities and no vertex outside its
      edges. */
  lemma AssemblePrintable(parsed: seq<Result<S.Section, S.SectionError>>)
    requires AllSections(parsed) && DistinctEdges(parsed) && N.Valid(Assemble(parsed))
    requires forall i | 0 <= i < |parsed| :: S.Printable(parsed[i].value)
    ensures Printable(Assemble(parsed))
  {
    AssembledNames(parsed);
    AssembledPositive(parsed);
  }

  /** Every vertex of the assembled network is an end of a section. */
  lemma AssembledNames(parsed: seq<Result<S.Section, S.SectionError>>)
    requires AllSections(parsed) && DistinctEdges(parsed)
    requires forall i | 0 <= i < |parsed| :: S.Printable(parsed[i].value)
    ensures forall v | v in Assemble(parsed).graph.vertices :: S.IsVertexName(v.identifier)
  {
    var n := Assemble(parsed);
    forall v | v in n.graph.vertices ensures S.IsVertexName(v.identifier) {
      var e :| e in n.graph.edges && (e.from == v || e.to == v);
      var i :| 0 <= i < |parsed| && parsed[i].value.edge == e;
    }
  }

  /** Every capacity of the assembled network is a section's. */
  lemma AssembledPositive(parsed: seq<Result<S.Section, S.SectionError>>)
    requires AllSections(parsed) && DistinctEdges(parsed)
    requires forall i | 0 <= i < |parsed| :: S.Printable(parsed[i].value)
    ensures forall e | e in Assemble(parsed).capacities :: Assemble(parsed).capacities[e] > 0
  {
    var n := Assemble(parsed);
    forall e | e in n.capacities ensures n.capacities[e] > 0 {
      var i :| 0 <= i < |parsed| && parsed[i].value.edge == e;
    }
  }

  /** `Display.stringify(Network)`: the sections of the edges, in the order
      given, joined by the delimiter. The source walks a hash set, whose
      order it leaves open; `order` stands for it. */
  function ShowNetwork(n: N.Network, order: seq<Edge>): string
    requires N.Valid(n) && forall i | 0 <= i < |order| :: order[i] in n.graph.edges
  {
    if order == [] then ""
    else Text.Join(seq(|order|, i requires 0 <= i < |order| => S.ShowSection(S.Section(order[i], n.capacities[order[i]]))), Delimiter)
  }

  /** `order` lists every edge of the set exactly once. */
  predicate Enumerates(order: seq<Edge>, edges: set<Edge>)
  {
    (forall i | 0 <= i < |order| :: order[i] in edges)
    && (forall e | e in edges :: e in order)
    && forall i, j | 0 <= i < j < |order| :: order[i] != order[j]
  }

  /** The networks that printing and reading back leaves alone: valid
      names, positive capacities, and no vertex outside the edges. */
  predicate Printable(n: N.Network)
  {
    N.Valid(n)
    && n.graph.vertices == Endpoints(n.graph.edges)
    && (forall v | v in n.graph.vertices :: S.IsVertexName(v.identifier))
    && forall e | e in n.capacities :: n.capacities[e] > 0
  }

  /** The first and last characters of joined non-empty pieces are those
      of the first and last piece. */
  lemma JoinEnds(pieces: seq<string>, sep: char)
    requires |pieces| >= 1 && forall i | 0 <= i < |pieces| :: |pieces[i]| > 0
    ensures var s := Text.Join(pieces, sep);
      |s| > 0 && s[0] == pieces[0][0] && s[|s| - 1] == pieces[|pieces| - 1][|pieces[|pieces| - 1]| - 1]
    decreases |pieces|
  {
    if |pieces| > 1 {
      JoinEnds(pieces[1..], sep);
    }
  }

  /** The printed sections of the edges, in order. */
  function Texts(n: N.Network, order: seq<Edge>): (texts: seq<string>)
    requires N.Valid(n) && forall i | 0 <= i < |order| :: order[i] in n.graph.edges
    ensures |texts| == |order|
    ensures forall i | 0 <= i < |order| :: texts[i] == S.ShowSection(S.Section(order[i], n.capacities[order[i]]))
  {
    seq(|order|, i requires 0 <= i < |order| => S.ShowSection(S.Section(order[i], n.capacities[order[i]])))
  }

  /** Every edge of a printable network prints as a section that reads
      back. */
  lemma PrintableSections(n: N.Network, e: Edge)
    requires Printable(n) && e in n.graph.edges
    ensures S.Printable(S.Section(e, n.capacities[e]))
  {
    N.ValidHasEnds(n);
    assert e.from in n.graph.vertices && e.to in n.graph.vertices;
  }

  /** The printed text of a printable network splits back into the printed
      sections and neither starts nor ends with the delimiter. */
  lemma SplitPrinted(n: N.Network, order: seq<Edge>)
    requires Printable(n) && Enumerates(order, n.graph.edges) && order != []
    ensures !BadEnds(ShowNetwork(n, order))
    ensures Text.Split(ShowNetwork(n, order), Delimiter) == Texts(n, order)
  {
    var texts := Texts(n, order);
    forall i | 0 <= i < |texts| ensures |texts[i]| > 0 && Delimiter !in texts[i] {
      PrintableSections(n, order[i]);
      S.ShowSectionShape(S.Section(order[i], n.capacities[order[i]]), Delimiter);
    }
    assert ShowNetwork(n, order) == Text.Join(texts, Delimiter);
    JoinEnds(texts, Delimiter);
    Text.SplitJoin(texts, Delimiter);
  }

  /** The sections of the edges, in order. */
  function Sectioned(n: N.Network, order: seq<Edge>): (parsed: seq<Result<S.Section, S.SectionError>>)
    requires N.Valid(n) && forall i | 0 <= i < |order| :: order[i] in n.graph.edges
    ensures |parsed| == |order|
    ensures forall i | 0 <= i < |order| :: parsed[i] == Ok(S.Section(order[i], n.capacities[order[i]]))
  {
    seq(|order|, i requires 0 <= i < |order| => Ok(S.Section(order[i], n.capacities[order[i]])))
  }

  /** Each printed section reads back as the section printed. */
  lemma ReadPrinted(n: N.Network, order: seq<Edge>)
    requires Printable(n) && Enumerates(order, n.graph.edges)
    ensures ReadAll(Texts(n, order)) == Sectioned(n, order)
  {
    var texts := Texts(n, order);
    forall i | 0 <= i < |order| ensures S.ParseSection(texts[i]) == Ok(S.Section(order[i], n.capacities[order[i]])) {
      PrintableSections(n, order[i]);
      S.ParseShowSection(S.Section(order[i], n.capacities[order[i]]));
    }
  }

  /** The sections of an enumeration of the edges have exactly the
      network's edges, each once. */
  lemma SectionedEdges(n: N.Network, order: seq<Edge>)
    requires N.Valid(n) && Enumerates(order, n.graph.edges)
    ensures var parsed := Sectioned(n, order);
      AllSections(parsed) && DistinctEdges(parsed) && EdgesOf(parsed) == n.graph.edges
  {
    var parsed := Sectioned(n, order);
    forall e | e in n.graph.edges ensures e in EdgesOf(parsed) {
      var i :| 0 <= i < |order| && order[i] == e;
      assert parsed[i].value.edge == e;
    }
  }

  /** The sections of an enumeration of the edges assemble into the
      network. */
  lemma AssembleSectioned(n: N.Network, order: seq<Edge>)
    requires N.Valid(n) && n.graph.vertices == Endpoints(n.graph.edges) && Enumerates(order, n.graph.edges)
    ensures var parsed := Sectioned(n, order);
      AllSections(parsed) && DistinctEdges(parsed) && Assemble(parsed) == n
  {
    var parsed := Sectioned(n, order);
    SectionedEdges(n, order);
    SectionedCapacities(n, order);
    assert Assemble(parsed).graph == n.graph;
  }

  /** The sections of an enumeration of the edges carry the network's
      capacities. */
  lemma SectionedCapacities(n: N.Network, order: seq<Edge>)
    requires N.Valid(n) && Enumerates(order, n.graph.edges)
    requires var parsed := Sectioned(n, order);
      AllSections(parsed) && DistinctEdges(parsed) && EdgesOf(parsed) == n.graph.edges
    ensures CapacitiesOf(Sectioned(n, order)) == n.capacities
  {
    var parsed := Sectioned(n, order);
    var caps := CapacitiesOf(parsed);
    assert caps.Keys == n.capacities.Keys;
    forall e | e in caps ensures caps[e] == n.capacities[e] {
      var i :| 0 <= i < |order| && order[i] == e;
      assert parsed[i] == Ok(S.Section(e, n.capacities[e]));
      assert caps[parsed[i].value.edge] == parsed[i].value.capacity;
    }
    SameEntries(caps, n.capacities);
  }

  /** Two maps with the same keys and the same value at each key are equal. */
  lemma SameEntries<K, V>(a: map<K, V>, b: map<K, V>)
    requires a.Keys == b.Keys && forall k | k in a :: a[k] == b[k]
    ensures a == b
  {
  }

  /** Reading the text of a printable network, in any order of its edges,
      gives back the network. */
  lemma ParseShowNetwork(n: N.Network, order: seq<Edge>)
    requires Printable(n) && Enumerates(order, n.graph.edges)
    ensures ParseNetwork(ShowNetwork(n, order)) == Ok(n)
  {
    N.ValidHasEnds(n);
    assert order != [] by {
      var v :| N.IsSource(n.graph, v);
      var e :| e in n.graph.edges && (e.from == v || e.to == v);
    }
    SplitPrinted(n, order);
    ReadPrinted(n, order);
    AssembleSectioned(n, order);
  }
}
