/** `parse`: the lines of a Gramps relationship graph cut into a header and
    four buckets (people, links, spouse blocks, families). The file read is
    left out; the function starts from the list `readlines` returned. */
module Segmenter {
  import opened Wrappers
  import opened PyStr

  /** The header ends one line after the first line holding this. */
  predicate IsMarkerLine(l: string) { Contains(l, "node ") }

  /** An edge between two nodes. */
  predicate IsLinkLine(l: string) { Contains(l, " -> ") }

  /** A person node, with its identifier quoted or not. */
  predicate IsPersonLine(l: string) { StartsWith(l, "  I") || StartsWith(l, "  \"I") }

  predicate OpensSubgraph(l: string) { StartsWith(l, "  subgraph") }

  predicate ClosesSubgraph(l: string) { StartsWith(l, "  }") }

  /** Reading an empty file leaves the header loop's index unbound, and the
      script stops with an error. */
  datatype ParseError = EmptyInput

  /** The header and the body. When a marker line has a successor, the
      header ends right after that successor; otherwise the whole file is
      header and the body is empty (the loop index runs off the end). */
  function SplitHeader(src: seq<string>): (r: Result<(seq<string>, seq<string>), ParseError>)
    ensures r.Failure? <==> |src| == 0
    ensures r.Success? ==> r.value.0 + r.value.1 == src
    ensures r.Success? && |r.value.1| > 0 ==>
      && |r.value.0| >= 2
      && IsMarkerLine(src[|r.value.0| - 2])
      && forall j :: 0 <= j < |r.value.0| - 2 ==> !IsMarkerLine(src[j])
    ensures r.Success? && |r.value.1| == 0 ==>
      forall j :: 0 <= j < |src| - 2 ==> !IsMarkerLine(src[j])
  {
    if |src| == 0 then Failure(EmptyInput)
    else
      var i := match FirstContaining(src, "node ")
        case Some(k) => k + 1
        case None => |src|;
      var cut := if i + 1 < |src| then i + 1 else |src|;
      Success((src[..cut], src[cut..]))
  }

  /** Relative index `y` of the line that closes a spouse block opening at
      `rest[0]`: the first line of `rest` starting with `  }`, or the last
      line of `rest` when there is none. */
  function BlockEnd(rest: seq<string>): (y: nat)
    requires |rest| > 0
    ensures y < |rest|
    ensures forall m :: 0 <= m < y ==> !ClosesSubgraph(rest[m])
    ensures ClosesSubgraph(rest[y]) || y == |rest| - 1
  {
    BlockEndFrom(rest, 0)
  }

  function BlockEndFrom(rest: seq<string>, y: nat): (r: nat)
    requires y < |rest|
    requires forall m :: 0 <= m < y ==> !ClosesSubgraph(rest[m])
    ensures y <= r < |rest|
    ensures forall m :: 0 <= m < r ==> !ClosesSubgraph(rest[m])
    ensures ClosesSubgraph(rest[r]) || r == |rest| - 1
    decreases |rest| - y
  {
    if ClosesSubgraph(rest[y]) || y == |rest| - 1 then y
    else BlockEndFrom(rest, y + 1)
  }

  /** One record of the body: a single line, or a whole spouse block. */
  datatype Piece =
    | Link(line: string)
    | Person(line: string)
    | Spouse(block: seq<string>)
    | Family(line: string)

  function Lines(p: Piece): seq<string> {
    match p
    case Link(l) => [l]
    case Person(l) => [l]
    case Spouse(b) => b
    case Family(l) => [l]
  }

  /** The classification rules, in their priority order. A spouse block
      opens on a subgraph line, holds no closing line before its last, and
      ends on a closing line unless it is the last record of the body. */
  predicate Classified(p: Piece, last: bool) {
    match p
    case Link(l) => IsLinkLine(l)
    case Person(l) => !IsLinkLine(l) && IsPersonLine(l)
    case Spouse(b) =>
      && |b| > 0
      && !IsLinkLine(b[0]) && !IsPersonLine(b[0]) && OpensSubgraph(b[0])
      && (forall m :: 0 <= m < |b| - 1 ==> !ClosesSubgraph(b[m]))
      && (ClosesSubgraph(b[|b| - 1]) || last)
    case Family(l) => !IsLinkLine(l) && !IsPersonLine(l) && !OpensSubgraph(l)
  }

  /** The lines of a sequence of records, in order. */
  function Flatten(ps: seq<Piece>): seq<string> {
    if |ps| == 0 then [] else Lines(ps[0]) + Flatten(ps[1..])
  }

  lemma {:induction false} FlattenAppend(a: seq<Piece>, b: seq<Piece>)
    ensures Flatten(a + b) == Flatten(a) + Flatten(b)
    decreases |a|
  {
    if |a| == 0 {
      assert a + b == b;
    } else {
      assert (a + b)[1..] == a[1..] + b;
      FlattenAppend(a[1..], b);
    }
  }

  /** `ps` cuts `lines` into classified records. */
  predicate IsCutOf(ps: seq<Piece>, lines: seq<string>) {
    && Flatten(ps) == lines
    && forall k :: 0 <= k < |ps| ==> Classified(ps[k], k == |ps| - 1)
  }

  /** One pass of the body loop at `rest == dot_body[j:]`: the record it
      files and how many lines `j` advances by (always at least one). */
  function NextPiece(rest: seq<string>): (r: (Piece, nat))
    requires |rest| > 0
    ensures 0 < r.1 <= |rest|
    ensures Lines(r.0) == rest[..r.1]
    ensures Classified(r.0, r.1 == |rest|)
  {
    var l := rest[0];
    if IsLinkLine(l) then (Link(l), 1)
    else if IsPersonLine(l) then (Person(l), 1)
    else if OpensSubgraph(l) then
      var y := BlockEnd(rest);
      (Spouse(rest[..y + 1]), y + 1)
    else (Family(l), 1)
  }

  /** The records of the body, in the order the loop meets them. */
  function Cut(rest: seq<string>): (ps: seq<Piece>)
    ensures Flatten(ps) == rest
    decreases |rest|
  {
    if |rest| == 0 then []
    else
      var (p, n) := NextPiece(rest);
      assert rest == rest[..n] + rest[n..];
      [p] + Cut(rest[n..])
  }

  /** The cut the loop makes is the only classified cut of the body. */
  lemma {:induction false} CutCharacterization(ps: seq<Piece>, lines: seq<string>)
    ensures IsCutOf(ps, lines) <==> ps == Cut(lines)
    decreases |lines|
  {
    if ps == Cut(lines) {
      CutIsClassified(lines);
    }
    if IsCutOf(ps, lines) {
      CutIsUnique(ps, lines);
    }
  }

  lemma {:induction false} CutIsClassified(lines: seq<string>)
    ensures IsCutOf(Cut(lines), lines)
    decreases |lines|
  {
    if |lines| > 0 {
      var (p, n) := NextPiece(lines);
      var rest := Cut(lines[n..]);
      CutIsClassified(lines[n..]);
      var ps := Cut(lines);
      assert ps == [p] + rest;
      forall k | 0 <= k < |ps|
        ensures Classified(ps[k], k == |ps| - 1)
      {
        if k == 0 {
          if n == |lines| {
            assert |rest| == 0;
          }
        } else {
          assert ps[k] == rest[k - 1];
        }
      }
    }
  }

  lemma {:induction false} CutIsUnique(ps: seq<Piece>, lines: seq<string>)
    requires IsCutOf(ps, lines)
    ensures ps == Cut(lines)
    decreases |lines|
  {
    if |ps| == 0 {
      return;
    }
    var q := ps[0];
    var tail := ps[1..];
    assert Classified(q, 0 == |ps| - 1);
    var m := |Lines(q)|;
    assert lines == Lines(q) + Flatten(tail);
    assert lines[..m] == Lines(q) && lines[m..] == Flatten(tail);
    assert m > 0 by {
      match q
      case Spouse(b) =>
      case _ =>
    }
    var (p, n) := NextPiece(lines);
    assert p == q && n == m by {
      match q
      case Spouse(b) =>
        assert OpensSubgraph(lines[0]) && !IsLinkLine(lines[0]) && !IsPersonLine(lines[0]);
      case _ =>
    }
    assert forall k :: 0 <= k < |tail| ==> tail[k] == ps[k + 1];
    assert IsCutOf(tail, lines[m..]);
    CutIsUnique(tail, lines[m..]);
  }

  /** The four buckets of the body, each in source order; a spouse block
      is kept as its lines, and the script's entry for it is their join. */
  datatype Buckets = Buckets(
    people: seq<string>,
    links: seq<string>,
    spouses: seq<seq<string>>,
    families: seq<string>)

  /** `append` of one record to the bucket its class names. */
  function File(b: Buckets, p: Piece): Buckets {
    match p
    case Link(l) => b.(links := b.links + [l])
    case Person(l) => b.(people := b.people + [l])
    case Spouse(blk) => b.(spouses := b.spouses + [blk])
    case Family(l) => b.(families := b.families + [l])
  }

  /** Every record filed in order, from empty buckets. */
  function Distribute(ps: seq<Piece>): Buckets
    decreases |ps|
  {
    if |ps| == 0 then Buckets([], [], [], [])
    else File(Distribute(ps[..|ps| - 1]), ps[|ps| - 1])
  }

  /** Each bucket of the first buckets followed by the same bucket of the
      second. */
  function Concat(a: Buckets, b: Buckets): Buckets {
    Buckets(a.people + b.people, a.links + b.links,
            a.spouses + b.spouses, a.families + b.families)
  }

  /** Order is kept: whatever comes from an earlier stretch of records
      precedes, in every bucket, whatever comes from a later one. */
  lemma {:induction false} DistributeConcat(a: seq<Piece>, b: seq<Piece>)
    ensures Distribute(a + b) == Concat(Distribute(a), Distribute(b))
    decreases |b|
  {
    if |b| == 0 {
      assert a + b == a;
    } else {
      var c := a + b;
      assert c[..|c| - 1] == a + b[..|b| - 1];
      DistributeConcat(a, b[..|b| - 1]);
    }
  }

  /** The body lines held by the buckets, spouse blocks flattened. */
  function BucketLines(b: Buckets): seq<string> {
    b.people + b.links + Join(b.spouses) + b.families
  }

  /** Filing a record adds its lines to the body and nothing else. */
  lemma FilePermutes(b: Buckets, p: Piece)
    ensures multiset(BucketLines(File(b, p))) == multiset(BucketLines(b)) + multiset(Lines(p))
  {
    match p
    case Person(l) => FilePersonPermutes(b, l);
    case Link(l) => FileLinkPermutes(b, l);
    case Spouse(blk) => FileSpousePermutes(b, blk);
    case Family(l) => assert BucketLines(File(b, p)) == BucketLines(b) + [l];
  }

  lemma FilePersonPermutes(b: Buckets, l: string)
    ensures multiset(BucketLines(File(b, Person(l)))) == multiset(BucketLines(b)) + multiset{l}
  {
    var rest := b.links + Join(b.spouses) + b.families;
    assert BucketLines(b) == b.people + rest;
    assert BucketLines(File(b, Person(l))) == b.people + [l] + rest;
    InsertPermutes(b.people, [l], rest);
  }

  lemma FileLinkPermutes(b: Buckets, l: string)
    ensures multiset(BucketLines(File(b, Link(l)))) == multiset(BucketLines(b)) + multiset{l}
  {
    var rest := Join(b.spouses) + b.families;
    assert BucketLines(b) == (b.people + b.links) + rest;
    assert BucketLines(File(b, Link(l))) == (b.people + b.links) + [l] + rest;
    InsertPermutes(b.people + b.links, [l], rest);
  }

  lemma FileSpousePermutes(b: Buckets, blk: seq<string>)
    ensures multiset(BucketLines(File(b, Spouse(blk)))) == multiset(BucketLines(b)) + multiset(blk)
  {
    JoinAppend(b.spouses, [blk]);
    assert Join([blk]) == blk;
    InsertPermutes(b.people + b.links + Join(b.spouses), blk, b.families);
  }

  /** Lines inserted anywhere add their multiset to the whole. */
  lemma InsertPermutes(pre: seq<string>, mid: seq<string>, post: seq<string>)
    ensures multiset(pre + mid + post) == multiset(pre + post) + multiset(mid)
  {
    calc {
      multiset(pre + mid + post);
      multiset(pre) + multiset(mid) + multiset(post);
      multiset(pre) + multiset(post) + multiset(mid);
      multiset(pre + post) + multiset(mid);
    }
  }

  /** Distributing loses and invents no line. */
  lemma {:induction false} DistributePermutes(ps: seq<Piece>)
    ensures multiset(BucketLines(Distribute(ps))) == multiset(Flatten(ps))
    decreases |ps|
  {
    if |ps| > 0 {
      var init := ps[..|ps| - 1];
      var p := ps[|ps| - 1];
      assert ps == init + [p];
      assert Distribute(ps) == File(Distribute(init), p);
      DistributePermutes(init);
      FlattenAppend(init, [p]);
      assert Flatten([p]) == Lines(p);
      FilePermutes(Distribute(init), p);
    }
  }

  /** Each bucket holds only what the classification rules send there. */
  lemma {:induction false} DistributeClassified(ps: seq<Piece>)
    requires forall k :: 0 <= k < |ps| ==> Classified(ps[k], k == |ps| - 1)
    ensures var b := Distribute(ps);
      && (forall l :: l in b.links ==> IsLinkLine(l))
      && (forall l :: l in b.people ==> !IsLinkLine(l) && IsPersonLine(l))
      && (forall l :: l in b.families ==> !IsLinkLine(l) && !IsPersonLine(l) && !OpensSubgraph(l))
      && (forall blk :: blk in b.spouses ==>
            |blk| > 0 && !IsLinkLine(blk[0]) && !IsPersonLine(blk[0]) && OpensSubgraph(blk[0]))
    decreases |ps|
  {
    if |ps| > 0 {
      var init := ps[..|ps| - 1];
      assert forall k :: 0 <= k < |init| ==> init[k] == ps[k];
      assert Classified(ps[|ps| - 1], true);
      DistributeClassified(init);
    }
  }

  /** The body loop: every line filed, spouse blocks whole, each bucket in
      source order. */
  function ParseBody(body: seq<string>): (b: Buckets)
    ensures multiset(BucketLines(b)) == multiset(body)
    ensures forall l :: l in b.links ==> IsLinkLine(l)
    ensures forall l :: l in b.people ==> !IsLinkLine(l) && IsPersonLine(l)
    ensures forall l :: l in b.families ==> !IsLinkLine(l) && !IsPersonLine(l) && !OpensSubgraph(l)
    ensures forall blk :: blk in b.spouses ==>
      |blk| > 0 && !IsLinkLine(blk[0]) && !IsPersonLine(blk[0]) && OpensSubgraph(blk[0])
  {
    var ps := Cut(body);
    DistributePermutes(ps);
    CutIsClassified(body);
    DistributeClassified(ps);
    Distribute(ps)
  }

  /** What `parse` returns. */
  datatype Diagram = Diagram(header: seq<string>, body: Buckets)

  /** `parse`, from the lines of the file. */
  function Parse(src: seq<string>): (r: Result<Diagram, ParseError>)
    ensures r.Failure? <==> |src| == 0
    ensures r.Success? ==>
      && |r.value.header| <= |src|
      && src[..|r.value.header|] == r.value.header
      && r.value.body == ParseBody(src[|r.value.header|..])
      && multiset(r.value.header + BucketLines(r.value.body)) == multiset(src)
    ensures r.Success? ==> SplitHeader(src) == Success((r.value.header, src[|r.value.header|..]))
  {
    match SplitHeader(src)
    case Failure(e) => Failure(e)
    case Success((header, body)) =>
      assert src[..|header|] == header && src[|header|..] == body;
      Success(Diagram(header, ParseBody(body)))
  }
}
