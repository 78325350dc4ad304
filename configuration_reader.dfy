/**
 * The edge lists that `read_file` builds once the configuration has been parsed:
 * a ring ("Circle"), a complete graph ("Full"), or the `[edge]` section's
 * `a_b = cost` items ("None"). The parsed node count, the option and the items
 * of the `[edge]` section are inputs; the parser itself is not part of this model.
 */
module ConfigReader {
  import opened Wrappers
  import opened Decimal

  /** The third field of an edge tuple: the generators write the integer 1,
      the `[edge]` section keeps the option's text unconverted. */
  datatype Value = Int(n: int) | Text(s: string)

  /** A tuple `(node_1, node_2, value)` of `list_edge`. */
  datatype EdgeEntry = EdgeEntry(node1: string, node2: string, value: Value)

  /** The ways `read_file` gives no list. As its handlers intend: None returned for a
      missing `[edge]` section, and an IndexError for a key without an underscore. As
      written: the AttributeError that every `except ConfigParser.Error` clause raises
      once an exception reaches it, since the class `ConfigParser` has no attribute
      `Error` (only the module `configparser` has). */
  datatype ReadError = NoEdgeSection | KeyWithoutUnderscore(name: string) | HandlerRaises

  // ---------------------------------------------------------------- Circle

  /** The ring neighbour after position `i` among `n` positions. */
  function RingNext(i: nat, n: nat): (r: nat)
    requires i < n
    ensures r < n
    ensures r == 0 <==> i == n - 1
  {
    if i + 1 < n then i + 1 else 0
  }

  /** A position below n is its own remainder, as `i % num_node` is for i in range(n). */
  lemma ModBelow(i: int, n: int)
    requires 0 <= i < n
    ensures i % n == i
  {
  }

  /** The ring: edge i joins node i+1 to the node after it, and the last node to node 1. */
  function Ring(n: int): (r: seq<EdgeEntry>)
    ensures |r| == if n <= 0 then 0 else n
    ensures forall i :: 0 <= i < |r| ==> r[i].value == Int(1) && r[i].node1 == NatToString(i + 1)
  {
    if n <= 0 then []
    else seq(n, i requires 0 <= i < n => EdgeEntry(NatToString(i + 1), NatToString(RingNext(i, n) + 1), Int(1)))
  }

  /** The "Circle" loop: `str((i % n)+1)` to `str(((i+1) % n)+1)` with value 1, for i in range(n). */
  method CircleEdgeList(numNode: int) returns (listEdge: seq<EdgeEntry>)
    ensures listEdge == Ring(numNode)
  {
    listEdge := [];
    var i := 0;
    while i < numNode
      invariant 0 <= i <= if numNode < 0 then 0 else numNode
      invariant |listEdge| == i
      invariant forall k :: 0 <= k < i ==> listEdge[k] == Ring(numNode)[k]
    {
      var value := 1;
      ModBelow(i, numNode);
      assert (i + 1) % numNode == RingNext(i, numNode) by {}
      var node1 := NatToString((i % numNode) + 1);
      var node2 := NatToString(((i + 1) % numNode) + 1);
      listEdge := listEdge + [EdgeEntry(node1, node2, Int(value))];
      i := i + 1;
    }
  }

  lemma RingAt(n: int, i: nat)
    requires i < |Ring(n)|
    ensures i < n && Ring(n)[i] == EdgeEntry(NatToString(i + 1), NatToString(RingNext(i, n) + 1), Int(1))
  {
  }

  /** The ring has n edges of value 1; edge i starts at node i+1 and ends at its ring
      successor, so every name 1..n starts exactly one edge and ends exactly one edge. */
  lemma RingShape(n: int)
    ensures |Ring(n)| == if n < 0 then 0 else n
    ensures forall i :: 0 <= i < |Ring(n)| ==>
      Ring(n)[i].value == Int(1) &&
      Ring(n)[i].node1 == NatToString(i + 1) &&
      Ring(n)[i].node2 == NatToString(if i == n - 1 then 1 else i + 2)
    ensures forall i, j :: 0 <= i < j < |Ring(n)| ==>
      Ring(n)[i].node1 != Ring(n)[j].node1 && Ring(n)[i].node2 != Ring(n)[j].node2
  {
    forall i | 0 <= i < |Ring(n)|
      ensures Ring(n)[i].value == Int(1) && Ring(n)[i].node1 == NatToString(i + 1)
      ensures Ring(n)[i].node2 == NatToString(if i == n - 1 then 1 else i + 2)
    {
      RingAt(n, i);
    }
    forall i, j | 0 <= i < j < |Ring(n)|
      ensures Ring(n)[i].node1 != Ring(n)[j].node1 && Ring(n)[i].node2 != Ring(n)[j].node2
    {
      RingAt(n, i);
      RingAt(n, j);
      NatToStringInjective(i + 1, j + 1);
      NatToStringInjective(RingNext(i, n) + 1, RingNext(j, n) + 1);
    }
  }

  /** Every endpoint of a ring edge names one of the nodes 1..n. */
  lemma RingLabelsInRange(n: int, i: nat)
    requires i < |Ring(n)|
    ensures 1 <= ParseDigits(Ring(n)[i].node1) <= n
    ensures 1 <= ParseDigits(Ring(n)[i].node2) <= n
  {
    RingAt(n, i);
    var a, b := i + 1, RingNext(i, n) + 1;
    ParseNatToString(a);
    ParseNatToString(b);
    assert ParseDigits(Ring(n)[i].node1) == a && ParseDigits(Ring(n)[i].node2) == b;
  }

  // ---------------------------------------------------------------- Full

  /** The pairs (i, j) with i < j < n for one fixed i, in increasing j. */
  function PairRow(i: nat, n: int): (r: seq<(nat, nat)>)
    ensures |r| == if i < n then n - i - 1 else 0
    ensures forall t :: 0 <= t < |r| ==> r[t] == (i, i + 1 + t)
  {
    if i < n then seq(n - i - 1, t requires 0 <= t < n - i - 1 => (i, i + 1 + t)) else []
  }

  /** The pairs of the first `i` rows of the doubly nested loop, in the order visited. */
  function PairsBefore(i: nat, n: int): seq<(nat, nat)>
  {
    if i == 0 then [] else PairsBefore(i - 1, n) + PairRow(i - 1, n)
  }

  /** The complete graph's index pairs in the order the loops visit them. */
  function Pairs(n: int): seq<(nat, nat)>
  {
    if n <= 0 then [] else PairsBefore(n, n)
  }

  function PairEdge(p: (nat, nat)): EdgeEntry
  {
    EdgeEntry(NatToString(p.0 + 1), NatToString(p.1 + 1), Int(1))
  }

  /** One edge per pair, in the order of the pairs. */
  function PairEdges(ps: seq<(nat, nat)>): (r: seq<EdgeEntry>)
    ensures |r| == |ps| && forall k :: 0 <= k < |ps| ==> r[k] == PairEdge(ps[k])
  {
    seq(|ps|, k requires 0 <= k < |ps| => PairEdge(ps[k]))
  }

  lemma PairEdgesAppend(ps: seq<(nat, nat)>, p: (nat, nat))
    ensures PairEdges(ps + [p]) == PairEdges(ps) + [PairEdge(p)]
  {
  }

  /** The complete graph: one edge of value 1 per pair of nodes. */
  function Complete(n: int): (r: seq<EdgeEntry>)
    ensures |r| == |Pairs(n)|
  {
    PairEdges(Pairs(n))
  }

  /** The "Full" loops: for i in range(n), for j in range(i+1, n), the edge (str(i+1), str(j+1), 1). */
  method FullEdgeList(numNode: int) returns (listEdge: seq<EdgeEntry>)
    ensures listEdge == Complete(numNode)
  {
    listEdge := [];
    var i: nat := 0;
    while i < numNode
      invariant i <= if numNode < 0 then 0 else numNode
      invariant listEdge == PairEdges(PairsBefore(i, numNode))
    {
      var value := 1;
      ModBelow(i, numNode);
      var node1 := NatToString((i % numNode) + 1);
      listEdge := FullRow(numNode, i, node1, value, listEdge);
      PairEdgesConcat(PairsBefore(i, numNode), PairRow(i, numNode));
      i := i + 1;
    }
    if numNode <= 0 {
      assert Pairs(numNode) == [] == PairsBefore(0, numNode);
    }
  }

  /** The inner loop of "Full" for node i, labelled `node1`: for j in range(i+1, n), the
      edge (node1, str(j+1), value) is appended. */
  method FullRow(numNode: int, i: nat, node1: string, value: int, listEdge: seq<EdgeEntry>)
    returns (listEdge': seq<EdgeEntry>)
    requires i < numNode && node1 == NatToString(i + 1) && value == 1
    ensures listEdge' == listEdge + PairEdges(PairRow(i, numNode))
  {
    ghost var row := PairRow(i, numNode);
    listEdge' := listEdge;
    var j: nat := i + 1;
    while j < numNode
      invariant i + 1 <= j <= numNode
      invariant listEdge' == listEdge + PairEdges(row[..j - i - 1])
    {
      ModBelow(j, numNode);
      var node2 := NatToString((j % numNode) + 1);
      FullEdgeAt(numNode, i, j, node1, node2, value);
      RowStep(listEdge, row, j - i - 1, listEdge');
      listEdge' := listEdge' + [EdgeEntry(node1, node2, Int(value))];
      j := j + 1;
    }
    assert row[..j - i - 1] == row;
  }

  /** The edge the inner loop appends for j is the one of pair j of row i. */
  lemma FullEdgeAt(numNode: int, i: nat, j: nat, node1: string, node2: string, value: int)
    requires i < j < numNode && node1 == NatToString(i + 1) && node2 == NatToString(j + 1) && value == 1
    ensures EdgeEntry(node1, node2, Int(value)) == PairEdge(PairRow(i, numNode)[j - i - 1])
  {
  }

  /** One pass of the inner loop: the edge of the next pair of the row follows those before. */
  lemma RowStep(prefix: seq<EdgeEntry>, row: seq<(nat, nat)>, t: nat, acc: seq<EdgeEntry>)
    requires t < |row| && acc == prefix + PairEdges(row[..t])
    ensures acc + [PairEdge(row[t])] == prefix + PairEdges(row[..t + 1])
  {
    assert row[..t + 1] == row[..t] + [row[t]];
    PairEdgesAppend(row[..t], row[t]);
  }

  /** The edges of two runs of pairs are the edges of each, one after the other. */
  lemma PairEdgesConcat(ps: seq<(nat, nat)>, qs: seq<(nat, nat)>)
    ensures PairEdges(ps + qs) == PairEdges(ps) + PairEdges(qs)
  {
  }

  /** Lexicographic order on index pairs. */
  predicate PairLess(p: (nat, nat), q: (nat, nat))
  {
    p.0 < q.0 || (p.0 == q.0 && p.1 < q.1)
  }

  /** The first `i` rows hold exactly the pairs a < b < n with a < i. */
  lemma PairsBeforeMembers(i: nat, n: nat)
    requires i <= n
    ensures forall p: (nat, nat) :: p in PairsBefore(i, n) <==> p.0 < i && p.0 < p.1 < n
  {
    forall p: (nat, nat) ensures p in PairsBefore(i, n) <==> p.0 < i && p.0 < p.1 < n {
      PairsBeforeMember(i, n, p);
    }
  }

  lemma {:induction false} PairsBeforeMember(i: nat, n: nat, p: (nat, nat))
    requires i <= n
    ensures p in PairsBefore(i, n) <==> p.0 < i && p.0 < p.1 < n
  {
    if i > 0 {
      PairsBeforeMember(i - 1, n, p);
      RowMembers(i - 1, n, p);
      assert PairsBefore(i, n) == PairsBefore(i - 1, n) + PairRow(i - 1, n);
    }
  }

  /** Row i holds exactly the pairs (i, b) with i < b < n. */
  lemma RowMembers(i: nat, n: int, p: (nat, nat))
    ensures p in PairRow(i, n) <==> p.0 == i && i < p.1 < n
  {
    if p.0 == i && i < p.1 < n {
      assert PairRow(i, n)[p.1 - i - 1] == p;
    }
  }

  /** Strictly increasing in lexicographic order. */
  predicate Ordered(s: seq<(nat, nat)>)
  {
    forall a, b :: 0 <= a < b < |s| ==> PairLess(s[a], s[b])
  }

  /** Two increasing runs, every pair of the first below every pair of the second, make
      one increasing run. */
  lemma ConcatOrdered(s: seq<(nat, nat)>, t: seq<(nat, nat)>)
    requires Ordered(s) && Ordered(t)
    requires forall a, b :: 0 <= a < |s| && 0 <= b < |t| ==> PairLess(s[a], t[b])
    ensures Ordered(s + t)
  {
    forall a, b | 0 <= a < b < |s + t|
      ensures PairLess((s + t)[a], (s + t)[b])
    {
      if b < |s| {
        assert (s + t)[a] == s[a] && (s + t)[b] == s[b];
      } else if a >= |s| {
        assert (s + t)[a] == t[a - |s|] && (s + t)[b] == t[b - |s|];
      } else {
        assert (s + t)[a] == s[a] && (s + t)[b] == t[b - |s|];
      }
    }
  }

  /** The first `i` rows are visited in strictly increasing lexicographic order. */
  lemma {:induction false} PairsBeforeOrdered(i: nat, n: nat)
    requires i <= n
    ensures Ordered(PairsBefore(i, n))
  {
    if i > 0 {
      PairsBeforeOrdered(i - 1, n);
      var prev, row := PairsBefore(i - 1, n), PairRow(i - 1, n);
      forall a, b | 0 <= a < |prev| && 0 <= b < |row|
        ensures PairLess(prev[a], row[b])
      {
        assert prev[a] in prev;
        PairsBeforeMember(i - 1, n, prev[a]);
      }
      ConcatOrdered(prev, row);
    }
  }

  /** The first `i` rows hold i*n - i*(i+1)/2 pairs. */
  lemma {:induction false} PairsBeforeCount(i: nat, n: nat)
    requires i <= n
    ensures 2 * |PairsBefore(i, n)| == 2 * i * n - i * (i + 1)
  {
    if i > 0 {
      PairsBeforeCount(i - 1, n);
      assert |PairsBefore(i, n)| == |PairsBefore(i - 1, n)| + (n - i);
      assert 2 * (i - 1) * n - (i - 1) * i + 2 * (n - i) == 2 * i * n - i * (i + 1) by {
        assert 2 * (i - 1) * n == 2 * i * n - 2 * n;
        assert (i - 1) * i == i * i - i;
        assert i * (i + 1) == i * i + i;
      }
    }
  }

  /** "Full" yields n(n-1)/2 edges of value 1, one per pair of distinct nodes i < j,
      named str(i+1) and str(j+1), in lexicographic order of (i, j) and so each pair once. */
  lemma CompleteShape(n: int)
    ensures 2 * |Complete(n)| == if n < 0 then 0 else n * (n - 1)
    ensures forall p :: p in Pairs(n) <==> p.0 < p.1 < n
    ensures Ordered(Pairs(n))
    ensures forall k :: 0 <= k < |Complete(n)| ==>
      Complete(n)[k] == EdgeEntry(NatToString(Pairs(n)[k].0 + 1), NatToString(Pairs(n)[k].1 + 1), Int(1))
  {
    if n > 0 {
      PairsBeforeMembers(n, n);
      PairsBeforeOrdered(n, n);
      PairsBeforeCount(n, n);
    }
  }

  // ---------------------------------------------------------------- None

  /** Python's `s.split(sep)` with an explicit separator: maximal pieces, empty ones kept. */
  function Split(s: string, sep: char): (parts: seq<string>)
    ensures |parts| >= 1
    decreases |s|
  {
    if s == [] then [""]
    else
      var rest := Split(s[1..], sep);
      if s[0] == sep then [""] + rest else [[s[0]] + rest[0]] + rest[1..]
  }

  /** `sep.join(parts)`. */
  function Join(parts: seq<string>, sep: char): string
    requires |parts| >= 1
  {
    if |parts| == 1 then parts[0] else parts[0] + [sep] + Join(parts[1..], sep)
  }

  /** Splitting loses nothing: joining the pieces gives the string back, no piece holds
      the separator, and there are at least two pieces exactly when the separator occurs. */
  lemma {:induction false} SplitJoin(s: string, sep: char)
    ensures Join(Split(s, sep), sep) == s
    ensures forall k :: 0 <= k < |Split(s, sep)| ==> sep !in Split(s, sep)[k]
    ensures |Split(s, sep)| >= 2 <==> sep in s
  {
    if s != [] {
      SplitJoin(s[1..], sep);
      var rest := Split(s[1..], sep);
      if s[0] == sep {
        assert ([""] + rest)[1..] == rest;
      } else {
        var parts := [[s[0]] + rest[0]] + rest[1..];
        if |rest| > 1 {
          assert parts[1..] == rest[1..];
          assert Join(rest, sep) == rest[0] + [sep] + Join(rest[1..], sep);
        }
        assert s == [s[0]] + s[1..];
      }
    }
  }

  /** One `[edge]` item `(name, value)` as `(name.split("_")[0], name.split("_")[1], value)`. */
  function NamedEdge(name: string, value: string): (r: Result<EdgeEntry, ReadError>)
    ensures r.Failure? ==> r.error == KeyWithoutUnderscore(name)
    ensures r.Success? ==> r.value.value == Text(value)
  {
    var parts := Split(name, '_');
    if |parts| < 2 then Failure(KeyWithoutUnderscore(name))
    else Success(EdgeEntry(parts[0], parts[1], Text(value)))
  }

  /** A key is accepted exactly when it holds an underscore; the first field is the text
      before the first underscore and the second the text up to the next one. */
  lemma NamedEdgeMeaning(name: string, value: string)
    ensures NamedEdge(name, value).Success? <==> '_' in name
    ensures NamedEdge(name, value).Success? ==>
      var e := NamedEdge(name, value).value;
      '_' !in e.node1 && '_' !in e.node2 && e.value == Text(value) &&
      |e.node1| + 1 + |e.node2| <= |name| &&
      name[..|e.node1| + 1] == e.node1 + ['_'] &&
      name[|e.node1| + 1..][..|e.node2|] == e.node2 &&
      (|e.node1| + 1 + |e.node2| == |name| || name[|e.node1| + 1 + |e.node2|] == '_')
  {
    SplitJoin(name, '_');
    var parts := Split(name, '_');
    if |parts| >= 2 {
      assert Join(parts, '_') == parts[0] + ['_'] + Join(parts[1..], '_');
      SplitJoin(name, '_');
      var tail := parts[1..];
      if |tail| > 1 {
        assert Join(tail, '_') == tail[0] + ['_'] + Join(tail[1..], '_');
      }
    }
  }

  /** The "None" branch over the items of the `[edge]` section, in order. */
  function NamedEdges(items: seq<(string, string)>): (r: Result<seq<EdgeEntry>, ReadError>)
    ensures r.Success? ==>
      |r.value| == |items| && forall k :: 0 <= k < |items| ==> r.value[k].value == Text(items[k].1)
    ensures r.Failure? ==> r.error.KeyWithoutUnderscore? && exists k :: 0 <= k < |items| && r.error.name == items[k].0
  {
    if items == [] then Success([])
    else match NamedEdges(items[..|items| - 1])
      case Failure(e) => Failure(e)
      case Success(es) =>
        match NamedEdge(items[|items| - 1].0, items[|items| - 1].1)
        case Failure(e) => Failure(e)
        case Success(x) => Success(es + [x])
  }

  /** Once an item has raised, later items do not matter. */
  lemma {:induction false} NamedEdgesFailureSticks(items: seq<(string, string)>, k: nat)
    requires k <= |items| && NamedEdges(items[..k]).Failure?
    ensures NamedEdges(items) == NamedEdges(items[..k])
    decreases |items| - k
  {
    if k < |items| {
      assert items[..k + 1][..k] == items[..k];
      NamedEdgesFailureSticks(items, k + 1);
    } else {
      assert items[..k] == items;
    }
  }

  /** The "None" loop: one edge per item, in item order; the first key without an
      underscore raises and the whole read produces no list. */
  method NamedEdgeList(items: seq<(string, string)>) returns (r: Result<seq<EdgeEntry>, ReadError>)
    ensures r == NamedEdges(items)
    ensures r.Success? <==> forall k :: 0 <= k < |items| ==> '_' in items[k].0
    ensures r.Success? ==>
      |r.value| == |items| &&
      forall k :: 0 <= k < |items| ==> Success(r.value[k]) == NamedEdge(items[k].0, items[k].1)
    ensures r.Failure? ==>
      exists k :: 0 <= k < |items| && r.error == KeyWithoutUnderscore(items[k].0) &&
        '_' !in items[k].0 && forall j :: 0 <= j < k ==> '_' in items[j].0
  {
    var listEdge: seq<EdgeEntry> := [];
    var k := 0;
    while k < |items|
      invariant 0 <= k <= |items|
      invariant |listEdge| == k
      invariant forall j :: 0 <= j < k ==> '_' in items[j].0 && Success(listEdge[j]) == NamedEdge(items[j].0, items[j].1)
      invariant NamedEdges(items[..k]) == Success(listEdge)
    {
      var (name, value) := items[k];
      NamedEdgeMeaning(name, value);
      var edge := NamedEdge(name, value);
      assert items[..k + 1][..k] == items[..k];
      if edge.Failure? {
        r := Failure(edge.error);
        NamedEdgesFailureSticks(items, k + 1);
        return;
      }
      listEdge := listEdge + [edge.value];
      k := k + 1;
    }
    assert items[..k] == items;
    r := Success(listEdge);
  }

  // ---------------------------------------------------------------- read_file

  /** `read_file` after parsing, as its handlers intend: `numNode` is `[node] number`,
      `option` is `[node] option` (None when absent, and then no generator applies), and
      `edgeSection` the items of `[edge]` (None when the section is missing, and then
      no list). */
  function ReadEdges(numNode: int, option: Option<string>, edgeSection: Option<seq<(string, string)>>):
    (r: Result<(int, seq<EdgeEntry>), ReadError>)
    ensures r.Failure? <==> option == Some("None") && (edgeSection.None? || NamedEdges(edgeSection.value).Failure?)
    ensures r.Success? ==> r.value.0 == numNode
  {
    if option == Some("Circle") then Success((numNode, Ring(numNode)))
    else if option == Some("Full") then Success((numNode, Complete(numNode)))
    else if option == Some("None") then
      match edgeSection
      case None => Failure(NoEdgeSection)
      case Some(items) =>
        match NamedEdges(items)
        case Success(es) => Success((numNode, es))
        case Failure(e) => Failure(e)
    else Success((numNode, []))
  }

  /** `read_file` as written: an absent option makes `parser.get` raise, and the
      handler `except ConfigParser.Error` raises AttributeError in turn; so does the
      handler of the "None" branch, for a missing `[edge]` section and for the
      IndexError of a key without an underscore alike. */
  function ReadEdgesAsWritten(numNode: int, option: Option<string>, edgeSection: Option<seq<(string, string)>>):
    (r: Result<(int, seq<EdgeEntry>), ReadError>)
    ensures r.Failure? <==> option.None? || (option == Some("None") && (edgeSection.None? || NamedEdges(edgeSection.value).Failure?))
    ensures r.Failure? ==> r.error == HandlerRaises
    ensures r.Success? ==> r.value.0 == numNode
  {
    match option
    case None => Failure(HandlerRaises)
    case Some(o) =>
      if o == "Circle" then Success((numNode, Ring(numNode)))
      else if o == "Full" then Success((numNode, Complete(numNode)))
      else if o == "None" then
        match edgeSection
        case None => Failure(HandlerRaises)
        case Some(items) =>
          match NamedEdges(items)
          case Success(es) => Success((numNode, es))
          case Failure(_) => Failure(HandlerRaises)
      else Success((numNode, []))
  }

  /** As written, `read_file` departs from its intended outcome exactly on the paths
      that reach a handler: an absent option, and in the "None" branch a missing section
      or a key without an underscore; there it raises AttributeError, and elsewhere
      both agree. A file without `[node] option` is the smallest case. */
  lemma HandlersRaise(numNode: int, option: Option<string>, edgeSection: Option<seq<(string, string)>>)
    ensures ReadEdgesAsWritten(numNode, option, edgeSection) != ReadEdges(numNode, option, edgeSection) <==>
      option.None? || (option == Some("None") && (edgeSection.None? || NamedEdges(edgeSection.value).Failure?))
    ensures ReadEdgesAsWritten(numNode, option, edgeSection) != ReadEdges(numNode, option, edgeSection) ==>
      ReadEdgesAsWritten(numNode, option, edgeSection) == Failure(HandlerRaises)
    ensures ReadEdgesAsWritten(numNode, None, None) == Failure(HandlerRaises) &&
      ReadEdges(numNode, None, None) == Success((numNode, []))
  {
  }

  /** `read_file` after parsing: the loops of the three options, with the outcome its
      handlers intend. */
  method ReadFile(numNode: int, option: Option<string>, edgeSection: Option<seq<(string, string)>>)
    returns (r: Result<(int, seq<EdgeEntry>), ReadError>)
    ensures r == ReadEdges(numNode, option, edgeSection)
    ensures option == Some("Circle") ==> r == Success((numNode, Ring(numNode)))
    ensures option == Some("Full") ==> r == Success((numNode, Complete(numNode)))
    ensures option == Some("None") && edgeSection.None? ==> r == Failure(NoEdgeSection)
    ensures option == Some("None") && edgeSection.Some? ==>
      match NamedEdges(edgeSection.value)
      case Success(es) => r == Success((numNode, es))
      case Failure(e) => r == Failure(e)
    ensures option !in {Some("Circle"), Some("Full"), Some("None")} ==> r == Success((numNode, []))
  {
    if option == Some("Circle") {
      var edges := CircleEdgeList(numNode);
      r := Success((numNode, edges));
    } else if option == Some("Full") {
      var edges := FullEdgeList(numNode);
      r := Success((numNode, edges));
    } else if option == Some("None") {
      if edgeSection.None? {
        r := Failure(NoEdgeSection);
      } else {
        var edges := NamedEdgeList(edgeSection.value);
        r := if edges.Success? then Success((numNode, edges.value)) else Failure(edges.error);
      }
    } else {
      r := Success((numNode, []));
    }
  }
}
