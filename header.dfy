/**
 * The header loop of `SplatRenderer::loadPly`: text lines are read until
 * the line `end_header`; `element vertex N` records the record count and
 * opens the vertex section, any other `element` line closes it, and each
 * `property <type> <name>` line inside the vertex section maps `<name>` to
 * the next value of a counter that starts at 0.
 */
module Header {
  import opened Wrappers
  import opened Text

  const EndHeader: string := "end_header"

  /** How the loop body reads one header line. */
  datatype LineKind =
    | VertexElement(count: Option<nat>)  // `element vertex [N]`
    | OtherElement                       // `element <other>` or a bare `element`
    | Property(name: string)             // `property <type> <name>`: the THIRD token
    | Ignored                            // anything else

  function Classify(line: string): (kind: LineKind)
    ensures var ts := Tokens(line);
            (kind.VertexElement? || kind.OtherElement? <==> TokenAt(ts, 0) == "element") &&
            (kind.VertexElement? <==> TokenAt(ts, 0) == "element" && TokenAt(ts, 1) == "vertex") &&
            (kind.VertexElement? ==> (kind.count.Some? <==> |ts| >= 3)) &&
            (kind.Property? <==> TokenAt(ts, 0) == "property") &&
            (kind.Property? ==> kind.name == TokenAt(ts, 2))
  {
    var ts := Tokens(line);
    if TokenAt(ts, 0) == "element" then
      if TokenAt(ts, 1) == "vertex" then
        // a missing count token leaves the count as it was
        VertexElement(if |ts| >= 3 then Some(CountValue(ts[2])) else None)
      else OtherElement
    else if TokenAt(ts, 0) == "property" then Property(TokenAt(ts, 2))
    else Ignored
  }

  /** The loop's variables: `vertexCount`, `props`, `propCounter`, `inVertex`. */
  datatype HeaderState = HeaderState(vertexCount: nat, props: map<string, nat>, propCounter: nat, inVertex: bool)

  const Initial: HeaderState := HeaderState(0, map[], 0, false)

  /** One iteration of the loop on a line other than `end_header`. */
  function Step(s: HeaderState, line: string): (t: HeaderState)
    ensures t.inVertex == (if Classify(line).VertexElement? then true
                           else if Classify(line).OtherElement? then false else s.inVertex)
    ensures Classify(line).VertexElement? && Classify(line).count.Some? ==> t.vertexCount == Classify(line).count.value
    ensures t.vertexCount != s.vertexCount ==> Classify(line).VertexElement? && Classify(line).count == Some(t.vertexCount)
    ensures t.propCounter == s.propCounter + (if Classify(line).Property? && s.inVertex then 1 else 0)
    ensures Classify(line).Property? && s.inVertex ==>
              Classify(line).name in t.props && t.props[Classify(line).name] == s.propCounter
    ensures forall x :: x in t.props <==> x in s.props || (Classify(line).Property? && s.inVertex && x == Classify(line).name)
    ensures forall x :: x in s.props && !(Classify(line).Property? && s.inVertex && x == Classify(line).name) ==>
              t.props[x] == s.props[x]
  {
    match Classify(line)
    case VertexElement(c) =>
      s.(vertexCount := if c.Some? then c.value else s.vertexCount, inVertex := true)
    case OtherElement =>
      s.(inVertex := false)
    case Property(name) =>
      if s.inVertex then s.(props := s.props[name := s.propCounter], propCounter := s.propCounter + 1)
      else s
    case Ignored =>
      s
  }

  /** Number of lines the loop processes: those before the first `end_header`. */
  function HeaderLength(lines: seq<string>): (n: nat)
    ensures n <= |lines|
    ensures forall k :: 0 <= k < n ==> lines[k] != EndHeader
    ensures n < |lines| ==> lines[n] == EndHeader
  {
    if lines == [] || lines[0] == EndHeader then 0 else 1 + HeaderLength(lines[1..])
  }

  /** The loop's variables after processing `lines[..k]`. */
  function StateAfter(lines: seq<string>, k: nat): HeaderState
    requires k <= |lines|
  {
    if k == 0 then Initial else Step(StateAfter(lines, k - 1), lines[k - 1])
  }

  /** The loop's variables when it stops. */
  function HeaderOf(lines: seq<string>): HeaderState {
    StateAfter(lines, HeaderLength(lines))
  }

  /** The header loop, as the source writes it. */
  method ParseHeader(lines: seq<string>) returns (h: HeaderState)
    ensures h == HeaderOf(lines)
  {
    var vertexCount: nat := 0;
    var props: map<string, nat> := map[];
    var propCounter: nat := 0;
    var inVertex := false;
    var i := 0;
    while i < |lines|
      invariant i <= HeaderLength(lines)
      invariant HeaderState(vertexCount, props, propCounter, inVertex) == StateAfter(lines, i)
    {
      var line := lines[i];
      if line == EndHeader {
        break;
      }
      var ts := Tokens(line);
      if TokenAt(ts, 0) == "element" {
        if TokenAt(ts, 1) == "vertex" {
          if |ts| >= 3 {
            vertexCount := CountValue(ts[2]);
          }
          inVertex := true;
        } else {
          inVertex := false;
        }
      } else if TokenAt(ts, 0) == "property" && inVertex {
        var name := TokenAt(ts, 2);
        props := props[name := propCounter];
        propCounter := propCounter + 1;
      }
      i := i + 1;
    }
    h := HeaderState(vertexCount, props, propCounter, inVertex);
  }

  // ---- a declarative reading of the header ----

  /** Whether the vertex section is open after `lines[..k]`: the last `element` line among them is `element vertex`. */
  predicate SectionOpen(lines: seq<string>, k: nat)
    requires k <= |lines|
  {
    if k == 0 then false
    else match Classify(lines[k - 1])
      case VertexElement(_) => true
      case OtherElement => false
      case _ => SectionOpen(lines, k - 1)
  }

  /** The names of the vertex properties declared in `lines[..k]`, in declaration order, repeats included. */
  function DeclaredProperties(lines: seq<string>, k: nat): seq<string>
    requires k <= |lines|
  {
    if k == 0 then []
    else
      var kind := Classify(lines[k - 1]);
      DeclaredProperties(lines, k - 1) + (if kind.Property? && SectionOpen(lines, k - 1) then [kind.name] else [])
  }

  /** The count on the last `element vertex` line in `lines[..k]` that has one, or 0. */
  function LastCount(lines: seq<string>, k: nat): nat
    requires k <= |lines|
  {
    if k == 0 then 0
    else
      var kind := Classify(lines[k - 1]);
      if kind.VertexElement? && kind.count.Some? then kind.count.value else LastCount(lines, k - 1)
  }

  /** The vertex properties the whole header declares. */
  function VertexProperties(lines: seq<string>): seq<string> {
    DeclaredProperties(lines, HeaderLength(lines))
  }

  /** Position of the last occurrence of `x` in `s`. */
  function LastIndexOf(s: seq<string>, x: string): (r: nat)
    requires x in s
    ensures r < |s| && s[r] == x && x !in s[r + 1..]
  {
    if s[|s| - 1] == x then |s| - 1
    else
      assert x in s[..|s| - 1] by { var k :| 0 <= k < |s| && s[k] == x; assert s[..|s| - 1][k] == x; }
      var r := LastIndexOf(s[..|s| - 1], x);
      assert s[r + 1..] == s[..|s| - 1][r + 1..] + [s[|s| - 1]];
      r
  }

  lemma LastIndexOfAppend(s: seq<string>, y: string, x: string)
    requires x in s && x != y
    ensures x in s + [y] && LastIndexOf(s + [y], x) == LastIndexOf(s, x)
  {
    assert (s + [y])[..|s|] == s;
  }

  /**
   * The loop's state after `lines[..k]`, read declaratively: the section
   * flag, the count of the last `element vertex` line, one counter step per
   * declared vertex property, and each declared name mapped to the position
   * of its LAST declaration.
   */
  lemma {:induction false} StateAfterMeaning(lines: seq<string>, k: nat)
    requires k <= |lines|
    ensures StateAfter(lines, k).inVertex == SectionOpen(lines, k)
    ensures StateAfter(lines, k).vertexCount == LastCount(lines, k)
    ensures StateAfter(lines, k).propCounter == |DeclaredProperties(lines, k)|
    ensures forall name :: name in StateAfter(lines, k).props <==> name in DeclaredProperties(lines, k)
    ensures forall name :: name in StateAfter(lines, k).props ==>
              StateAfter(lines, k).props[name] == LastIndexOf(DeclaredProperties(lines, k), name)
  {
    if k > 0 {
      StateAfterMeaning(lines, k - 1);
      var s, d := StateAfter(lines, k - 1), DeclaredProperties(lines, k - 1);
      var kind := Classify(lines[k - 1]);
      if kind.Property? && s.inVertex {
        var name := kind.name;
        assert DeclaredProperties(lines, k) == d + [name];
        forall x | x in StateAfter(lines, k).props
          ensures StateAfter(lines, k).props[x] == LastIndexOf(d + [name], x)
        {
          if x != name {
            LastIndexOfAppend(d, name, x);
          }
        }
      } else {
        assert DeclaredProperties(lines, k) == d;
      }
    }
  }

  /** A `property` line extends the declared names only while the vertex section is open. */
  lemma PropertyLineStep(lines: seq<string>, k: nat)
    requires k < |lines| && Classify(lines[k]).Property?
    ensures SectionOpen(lines, k + 1) == SectionOpen(lines, k)
    ensures LastCount(lines, k + 1) == LastCount(lines, k)
    ensures DeclaredProperties(lines, k + 1) ==
            DeclaredProperties(lines, k) + if SectionOpen(lines, k) then [Classify(lines[k]).name] else []
  {
  }

  /** `lines[start..]` begins with one `property` line for each of `names`, in order. */
  predicate PropertyLinesAt(lines: seq<string>, start: nat, names: seq<string>) {
    start + |names| <= |lines| &&
    forall j :: 0 <= j < |names| ==> Classify(lines[start + j]) == Property(names[j])
  }

  /**
   * A run of `property` lines inside an open vertex section declares exactly
   * their names, in order, and leaves the section open and the count unchanged.
   */
  lemma {:induction false} PropertyRun(lines: seq<string>, start: nat, names: seq<string>, k: nat)
    requires PropertyLinesAt(lines, start, names) && k <= |names| && SectionOpen(lines, start)
    ensures SectionOpen(lines, start + k)
    ensures DeclaredProperties(lines, start + k) == DeclaredProperties(lines, start) + names[..k]
    ensures LastCount(lines, start + k) == LastCount(lines, start)
  {
    if k > 0 {
      PropertyRun(lines, start, names, k - 1);
      assert Classify(lines[start + k - 1]) == Property(names[k - 1]);
      PropertyLineStep(lines, start + k - 1);
      assert names[..k] == names[..k - 1] + [names[k - 1]];
    }
  }

  /** No value in the map reaches the counter. */
  lemma PropsBelowCounter(lines: seq<string>)
    ensures forall name :: name in HeaderOf(lines).props ==> HeaderOf(lines).props[name] < HeaderOf(lines).propCounter
  {
    StateAfterMeaning(lines, HeaderLength(lines));
  }

  /**
   * The Nth vertex property gets index N: the counter equals the number of
   * vertex property lines, exactly the declared names are mapped, and a name
   * declared once more later is mapped to its later position.
   */
  lemma DeclarationOrder(lines: seq<string>)
    ensures HeaderOf(lines).propCounter == |VertexProperties(lines)|
    ensures forall name :: name in HeaderOf(lines).props <==> name in VertexProperties(lines)
    ensures forall j :: 0 <= j < |VertexProperties(lines)| && VertexProperties(lines)[j] !in VertexProperties(lines)[j + 1..] ==>
              HeaderOf(lines).props[VertexProperties(lines)[j]] == j
  {
    var vp := VertexProperties(lines);
    StateAfterMeaning(lines, HeaderLength(lines));
    forall j | 0 <= j < |vp| && vp[j] !in vp[j + 1..]
      ensures HeaderOf(lines).props[vp[j]] == j
    {
      var r := LastIndexOf(vp, vp[j]);
      if r != j {
        assert false;
      }
    }
  }

  lemma {:induction false} NoVertexElementBefore(lines: seq<string>, k: nat)
    requires k <= |lines|
    requires forall m :: 0 <= m < k ==> !Classify(lines[m]).VertexElement?
    ensures !SectionOpen(lines, k) && DeclaredProperties(lines, k) == [] && LastCount(lines, k) == 0
  {
    if k > 0 {
      NoVertexElementBefore(lines, k - 1);
    }
  }

  /** Without an `element vertex` line the count stays 0 and nothing is mapped. */
  lemma NoVertexElement(lines: seq<string>)
    requires forall m :: 0 <= m < HeaderLength(lines) ==> !Classify(lines[m]).VertexElement?
    ensures HeaderOf(lines).vertexCount == 0
    ensures HeaderOf(lines).propCounter == 0 && HeaderOf(lines).props == map[]
  {
    NoVertexElementBefore(lines, HeaderLength(lines));
    StateAfterMeaning(lines, HeaderLength(lines));
  }

  lemma {:induction false} StateAfterPrefix(a: seq<string>, b: seq<string>, k: nat)
    requires k <= |a| && k <= |b| && a[..k] == b[..k]
    ensures StateAfter(a, k) == StateAfter(b, k)
  {
    if k > 0 {
      assert a[..k - 1] == b[..k - 1] by { assert a[..k - 1] == a[..k][..k - 1]; assert b[..k - 1] == b[..k][..k - 1]; }
      assert a[k - 1] == a[..k][k - 1];
      StateAfterPrefix(a, b, k - 1);
    }
  }

  lemma {:induction false} DeclaredPrefix(a: seq<string>, b: seq<string>, k: nat)
    requires k <= |a| && k <= |b| && a[..k] == b[..k]
    ensures DeclaredProperties(a, k) == DeclaredProperties(b, k)
    ensures SectionOpen(a, k) == SectionOpen(b, k)
  {
    if k > 0 {
      assert a[..k - 1] == b[..k - 1] by { assert a[..k - 1] == a[..k][..k - 1]; assert b[..k - 1] == b[..k][..k - 1]; }
      assert a[k - 1] == a[..k][k - 1];
      DeclaredPrefix(a, b, k - 1);
    }
  }

  /** Parsing stops at the first `end_header`: what follows it has no effect. */
  lemma StopsAtEndHeader(pre: seq<string>, post: seq<string>)
    requires EndHeader !in pre
    ensures HeaderLength(pre + [EndHeader] + post) == |pre|
    ensures HeaderOf(pre + [EndHeader] + post) == HeaderOf(pre)
  {
    var lines := pre + [EndHeader] + post;
    assert lines[|pre|] == EndHeader;
    assert HeaderLength(pre) == |pre|;
    assert lines[..|pre|] == pre[..|pre|];
    StateAfterPrefix(lines, pre, |pre|);
  }

  // ---- the quirks of reading the name as the third token ----

  /** `property list <count-type> <item-type> <name>` registers the count type as its name. */
  lemma ListPropertyName(countType: string, itemType: string, name: string)
    requires IsToken(countType) && IsToken(itemType) && IsToken(name)
    ensures Classify(JoinSpace(["property", "list", countType, itemType, name])) == Property(countType)
  {
    TokensOfJoin(["property", "list", countType, itemType, name]);
  }

  /** `property <type> <name>` as a writer emits it is read as a declaration of `name`. */
  lemma PropertyLine(ty: string, name: string)
    requires IsToken(ty) && IsToken(name)
    ensures Classify(JoinSpace(["property", ty, name])) == Property(name)
  {
    TokensOfJoin(["property", ty, name]);
  }

  /** `element vertex <n>` as a writer emits it is read back with count `n`. */
  lemma VertexElementLine(n: nat)
    requires n <= IntMax
    ensures Classify(JoinSpace(["element", "vertex", Decimal(n)])) == VertexElement(Some(n))
  {
    TokensOfJoin(["element", "vertex", Decimal(n)]);
    CountOfDecimal(n);
  }
}

module HeaderWriter {
  import opened Wrappers
  import opened Text
  import opened Header

  /** The property lines a writer emits for records of float fields named `names`. */
  function PropertyLines(names: seq<string>): seq<string> {
    seq(|names|, k requires 0 <= k < |names| => JoinSpace(["property", "float", names[k]]))
  }

  /** The lines before `end_header`: magic, format, the vertex element, its properties. */
  function Preamble(n: nat, names: seq<string>): seq<string> {
    ["ply", JoinSpace(["format", "binary_little_endian", "1.0"]), JoinSpace(["element", "vertex", Decimal(n)])]
      + PropertyLines(names)
  }

  /** A header for `n` vertex records whose fields are `names`, in that order. */
  function WriteHeader(n: nat, names: seq<string>): seq<string> {
    Preamble(n, names) + [EndHeader]
  }

  predicate AllTokens(names: seq<string>) {
    forall k :: 0 <= k < |names| ==> IsToken(names[k])
  }

  predicate Distinct(names: seq<string>) {
    forall a, b :: 0 <= a < b < |names| ==> names[a] != names[b]
  }

  lemma JoinSpaceStart(ts: seq<string>)
    requires ts != [] && |ts[0]| > 0
    ensures |JoinSpace(ts)| > 0 && JoinSpace(ts)[0] == ts[0][0]
  {
    if |ts| > 1 {
      assert JoinSpace(ts) == ts[0] + (" " + JoinSpace(ts[1..]));
    }
  }

  lemma ClassifyOpening(n: nat)
    requires n <= IntMax
    ensures Classify("ply") == Ignored
    ensures Classify(JoinSpace(["format", "binary_little_endian", "1.0"])) == Ignored
    ensures Classify(JoinSpace(["element", "vertex", Decimal(n)])) == VertexElement(Some(n))
  {
    assert JoinSpace(["ply"]) == "ply";
    TokensOfJoin(["ply"]);
    TokensOfJoin(["format", "binary_little_endian", "1.0"]);
    VertexElementLine(n);
  }

  lemma WrittenHeaderPrefix(n: nat, names: seq<string>)
    requires n <= IntMax && AllTokens(names)
    ensures 3 + |names| == |Preamble(n, names)|
    ensures SectionOpen(Preamble(n, names), 3 + |names|)
    ensures DeclaredProperties(Preamble(n, names), 3 + |names|) == names
    ensures LastCount(Preamble(n, names), 3 + |names|) == n
  {
    var lines := Preamble(n, names);
    WrittenOpening(n, names);
    WrittenPropertyLines(n, names);
    PropertyRun(lines, 3, names, |names|);
    assert names[..|names|] == names;
  }

  lemma WrittenOpening(n: nat, names: seq<string>)
    requires n <= IntMax
    ensures 3 <= |Preamble(n, names)|
    ensures SectionOpen(Preamble(n, names), 3)
    ensures DeclaredProperties(Preamble(n, names), 3) == []
    ensures LastCount(Preamble(n, names), 3) == n
  {
    var lines := Preamble(n, names);
    ClassifyOpening(n);
    assert Classify(lines[0]) == Ignored && Classify(lines[1]) == Ignored;
    assert Classify(lines[2]) == VertexElement(Some(n));
    assert DeclaredProperties(lines, 2) == [] by {
      assert DeclaredProperties(lines, 1) == [];
    }
  }

  lemma WrittenPropertyLine(n: nat, names: seq<string>, k: nat)
    requires AllTokens(names) && k < |names|
    ensures 3 + k < |Preamble(n, names)|
    ensures Classify(Preamble(n, names)[3 + k]) == Property(names[k])
  {
    assert Preamble(n, names)[3 + k] == JoinSpace(["property", "float", names[k]]);
    PropertyLine("float", names[k]);
  }

  lemma WrittenPropertyLines(n: nat, names: seq<string>)
    requires AllTokens(names)
    ensures PropertyLinesAt(Preamble(n, names), 3, names)
  {
    forall j | 0 <= j < |names| ensures Classify(Preamble(n, names)[3 + j]) == Property(names[j]) {
      WrittenPropertyLine(n, names, j);
    }
  }

  lemma PreambleHasNoEndHeader(n: nat, names: seq<string>)
    ensures EndHeader !in Preamble(n, names)
  {
    var lines := Preamble(n, names);
    forall k | 0 <= k < |lines| ensures lines[k] != EndHeader {
      if k == 1 {
        JoinSpaceStart(["format", "binary_little_endian", "1.0"]);
      } else if k == 2 {
        JoinSpaceStart(["element", "vertex", Decimal(n)]);
      } else if k >= 3 {
        JoinSpaceStart(["property", "float", names[k - 3]]);
      }
    }
  }

  /** The header loop of a written header stops at its `end_header` line. */
  lemma WrittenHeaderLength(n: nat, names: seq<string>)
    ensures HeaderLength(WriteHeader(n, names)) == |Preamble(n, names)| < |WriteHeader(n, names)|
  {
    PreambleHasNoEndHeader(n, names);
    assert WriteHeader(n, names) == Preamble(n, names) + [EndHeader] + [];
    StopsAtEndHeader(Preamble(n, names), []);
  }

  /**
   * Round trip on the header: a written header is read back with its record
   * count, one counter step per field, and each field mapped to its position.
   */
  lemma ParseWrittenHeader(n: nat, names: seq<string>)
    requires n <= IntMax && AllTokens(names) && Distinct(names)
    ensures HeaderOf(WriteHeader(n, names)).vertexCount == n
    ensures HeaderOf(WriteHeader(n, names)).propCounter == |names|
    ensures forall name :: name in HeaderOf(WriteHeader(n, names)).props <==> name in names
    ensures forall j :: 0 <= j < |names| ==> HeaderOf(WriteHeader(n, names)).props[names[j]] == j
    ensures VertexProperties(WriteHeader(n, names)) == names
  {
    var pre := Preamble(n, names);
    PreambleHasNoEndHeader(n, names);
    assert WriteHeader(n, names) == pre + [EndHeader] + [];
    StopsAtEndHeader(pre, []);
    WrittenHeaderPrefix(n, names);
    assert HeaderLength(pre) == 3 + |names|;
    assert VertexProperties(WriteHeader(n, names)) == DeclaredProperties(WriteHeader(n, names), |pre|);
    assert WriteHeader(n, names)[..|pre|] == pre;
    DeclaredPrefix(WriteHeader(n, names), pre, |pre|);
    StateAfterMeaning(pre, |pre|);
    forall j | 0 <= j < |names| ensures LastIndexOf(names, names[j]) == j {
      var r := LastIndexOf(names, names[j]);
      if r != j {
        assert false;
      }
    }
  }
}
