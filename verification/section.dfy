/** Escape sections in text (`EscapeSectionMapper`, `Display`): a section
    is written as the name of the vertex it leaves, its capacity in decimal,
    and the name of the vertex it enters, with nothing in between, as in
    `ab12cd`. The regular expressions of the source are written here as
    character predicates. */
module Sections {
  import opened Wrappers
  import opened Edges
  import D = Decimal

  predicate IsLower(c: char) { 'a' <= c <= 'z' }

  predicate IsUpper(c: char) { 'A' <= c <= 'Z' }

  /** `[a-z]{1,6}`, the vertex name pattern of `EscapeNetworkSystem`. */
  predicate IsVertexName(s: string)
  {
    1 <= |s| <= 6 && forall i | 0 <= i < |s| :: IsLower(s[i])
  }

  /** `[A-Z]{1,6}`, the network name pattern of `EscapeNetworkSystem`. */
  predicate IsNetworkName(s: string)
  {
    1 <= |s| <= 6 && forall i | 0 <= i < |s| :: IsUpper(s[i])
  }

  /** An edge with its capacity; `EscapeSection.of` refuses a negative
      capacity, so the capacity is a natural number. */
  datatype Section = Section(edge: Edge, capacity: nat)

  /** Why `EscapeSectionMapper` refuses a piece of text. */
  datatype SectionError =
    | Malformed            // not a name, a digit run and a name
    | NonPositiveCapacity  // the capacity is zero
    | LoopSection          // both names are the same

  /** `s` is the name `a`, the digit run `d` and the name `b`, in that
      order: the pattern `([a-z]{1,6})(\d+)([a-z]{1,6})` matches all of `s`
      with these three groups. */
  predicate Matches(s: string, a: string, d: string, b: string)
  {
    s == a + d + b && IsVertexName(a) && |d| >= 1 && D.AllDigits(d) && IsVertexName(b)
  }

  /** The length of the longest prefix of lower-case letters. */
  function LetterRun(s: string): (k: nat)
    ensures k <= |s| && (forall i | 0 <= i < k :: IsLower(s[i])) && (k < |s| ==> !IsLower(s[k]))
    decreases |s|
  {
    if s == [] || !IsLower(s[0]) then 0 else 1 + LetterRun(s[1..])
  }

  /** The length of the longest prefix of digits. */
  function DigitRun(s: string): (k: nat)
    ensures k <= |s| && (forall i | 0 <= i < k :: D.IsDigit(s[i])) && (k < |s| ==> !D.IsDigit(s[k]))
    decreases |s|
  {
    if s == [] || !D.IsDigit(s[0]) then 0 else 1 + DigitRun(s[1..])
  }

  /** Letters and digits are disjoint, so a match splits the text at the
      ends of the two runs. */
  lemma MatchAtRuns(s: string, a: string, d: string, b: string)
    requires Matches(s, a, d, b)
    ensures LetterRun(s) == |a| && DigitRun(s[|a|..]) == |d|
    ensures a == s[..|a|] && d == s[|a|..][..|d|] && b == s[|a|..][|d|..]
  {
    var k := LetterRun(s);
    assert s[|a|] == d[0];
    assert k == |a|;
    var rest := s[|a|..];
    assert rest == d + b;
    var m := DigitRun(rest);
    assert rest[|d|] == b[0];
    assert m == |d|;
  }

  /** The text matches the section pattern in at most one way. */
  lemma MatchUnique(s: string, a: string, d: string, b: string, a': string, d': string, b': string)
    requires Matches(s, a, d, b) && Matches(s, a', d', b')
    ensures a == a' && d == d' && b == b'
  {
    MatchAtRuns(s, a, d, b);
    MatchAtRuns(s, a', d', b');
  }

  /** The three groups of the section pattern, when it matches. */
  function Groups(s: string): (r: Option<(string, string, string)>)
    ensures r.Some? ==> Matches(s, r.value.0, r.value.1, r.value.2)
    ensures forall a, d, b | Matches(s, a, d, b) :: r == Some((a, d, b))
  {
    var k := LetterRun(s);
    var rest := s[k..];
    var m := DigitRun(rest);
    var a, d, b := s[..k], rest[..m], rest[m..];
    assert s == a + d + b;
    assert forall a', d', b' | Matches(s, a', d', b') :: a' == a && d' == d && b' == b by {
      forall a', d', b' | Matches(s, a', d', b') ensures a' == a && d' == d && b' == b {
        MatchAtRuns(s, a', d', b');
      }
    }
    if IsVertexName(a) && m >= 1 && IsVertexName(b) then Some((a, d, b)) else None
  }

  /** A section as the parser produces it: two different valid vertex
      names and a positive capacity. */
  predicate Printable(sec: Section)
  {
    IsVertexName(sec.edge.from.identifier) && IsVertexName(sec.edge.to.identifier)
    && !IsLoop(sec.edge) && sec.capacity > 0
  }

  /** `EscapeSectionMapper.apply`: match the pattern, read the capacity and
      require it to be positive, then refuse a loop. What it reads is a
      section that prints back to text of the same shape. */
  function ParseSection(s: string): (r: Result<Section, SectionError>)
    ensures r.Ok? ==> Printable(r.value)
  {
    match Groups(s)
    case None => Err(Malformed)
    case Some((a, d, b)) =>
      var capacity := D.Value(d);
      if capacity <= 0 then Err(NonPositiveCapacity)
      else if a == b then Err(LoopSection)
      else Ok(Section(Edge(Vertex(a), Vertex(b)), capacity))
  }

  /** The outcome of reading a section, by the way the text matches the
      pattern: no match is malformed; a match is read as the edge between
      its two names with its digit run's value, unless that value is zero
      or the names are equal. */
  lemma ParseSectionSpec(s: string)
    ensures ParseSection(s) == Err(Malformed) <==> !exists a, d, b :: Matches(s, a, d, b)
    ensures forall a, d, b | Matches(s, a, d, b) ::
      && (ParseSection(s).Ok? <==> D.Value(d) > 0 && a != b)
      && (ParseSection(s).Ok? ==> ParseSection(s).value == Section(Edge(Vertex(a), Vertex(b)), D.Value(d)))
      && (D.Value(d) == 0 ==> ParseSection(s) == Err(NonPositiveCapacity))
      && (D.Value(d) > 0 && a == b ==> ParseSection(s) == Err(LoopSection))
  {
  }

  /** `Display.stringify(Vertex)`: a vertex is written as its name. */
  function ShowVertex(v: Vertex): string
  {
    v.identifier
  }

  /** `Display.stringify(EscapeSection)`: the source's name, the capacity in
      decimal and the target's name. */
  function ShowSection(sec: Section): string
  {
    ShowVertex(sec.edge.from) + D.Show(sec.capacity) + ShowVertex(sec.edge.to)
  }

  /** Reading the text of a printable section gives the section back. */
  lemma ParseShowSection(sec: Section)
    requires Printable(sec)
    ensures ParseSection(ShowSection(sec)) == Ok(sec)
  {
    var a, d, b := sec.edge.from.identifier, D.Show(sec.capacity), sec.edge.to.identifier;
    D.ValueOfShow(sec.capacity);
    assert Matches(ShowSection(sec), a, d, b);
    ParseSectionSpec(ShowSection(sec));
    assert sec.edge == Edge(Vertex(a), Vertex(b));
  }

  /** A printed section has no separator in it and is never empty. */
  lemma ShowSectionShape(sec: Section, sep: char)
    requires Printable(sec) && !IsLower(sep) && !D.IsDigit(sep)
    ensures |ShowSection(sec)| > 0 && sep !in ShowSection(sec)
  {
    var s := ShowSection(sec);
    var a, d, b := sec.edge.from.identifier, D.Show(sec.capacity), sec.edge.to.identifier;
    forall i | 0 <= i < |s| ensures s[i] != sep {
      if i < |a| {
        assert s[i] == a[i];
      } else if i < |a| + |d| {
        assert s[i] == d[i - |a|];
      } else {
        assert s[i] == b[i - |a| - |d|];
      }
    }
  }

  /** Text that is read as a section is printed back to itself exactly when
      its capacity is written without leading zeros. */
  lemma ShowParseSection(s: string, a: string, d: string, b: string)
    requires Matches(s, a, d, b) && ParseSection(s).Ok?
    ensures ShowSection(ParseSection(s).value) == s <==> D.Canonical(d)
  {
    var sec := ParseSection(s).value;
    ParseSectionSpec(s);
    if D.Canonical(d) {
      D.ShowOfValue(d);
    }
    if ShowSection(sec) == s {
      assert Matches(s, a, D.Show(D.Value(d)), b);
      MatchUnique(s, a, d, b, a, D.Show(D.Value(d)), b);
    }
  }
}
