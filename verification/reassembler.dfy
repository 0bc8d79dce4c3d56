/** The candidate document: `header + people + links + spouses + families`,
    the list handed to `dot` and, joined, the text it reads. */
module Reassembler {
  import opened Wrappers
  import opened PyStr
  import opened Segmenter

  /** The script's `spouses` list: each block joined into one string, in
      block order, so that the list's text is the text of all the blocks'
      lines. */
  function SpouseEntries(blocks: seq<seq<string>>): (r: seq<string>)
    ensures |r| == |blocks|
    ensures forall k :: 0 <= k < |blocks| ==> r[k] == Join(blocks[k])
    ensures Join(r) == Join(Join(blocks))
    decreases |blocks|
  {
    if |blocks| == 0 then []
    else
      var rest := SpouseEntries(blocks[1..]);
      JoinAppend(blocks[0], Join(blocks[1..]));
      assert ([Join(blocks[0])] + rest)[1..] == rest;
      [Join(blocks[0])] + rest
  }

  /** The document with `people` in place of the parsed person lines. */
  function Assemble(d: Diagram, people: seq<string>): seq<string> {
    d.header + people + d.body.links + SpouseEntries(d.body.spouses) + d.body.families
  }

  /** The document starts with the header, then the people in the order
      given, and holds one entry per link, spouse block and family. */
  lemma AssembleLayout(d: Diagram, people: seq<string>)
    ensures |Assemble(d, people)|
            == |d.header| + |people| + |d.body.links| + |d.body.spouses| + |d.body.families|
    ensures Assemble(d, people)[..|d.header|] == d.header
    ensures Assemble(d, people)[|d.header|..|d.header| + |people|] == people
  {
    var tail := d.body.links + SpouseEntries(d.body.spouses) + d.body.families;
    assert Assemble(d, people) == d.header + people + tail;
    assert (d.header + people + tail)[..|d.header|] == d.header;
    assert (d.header + people + tail)[|d.header|..|d.header| + |people|] == people;
  }

  /** The same document one source line per entry, spouse blocks unjoined. */
  function AssembleLines(d: Diagram, people: seq<string>): seq<string> {
    d.header + people + BucketLines(d.body.(people := []))
  }

  /** Two candidates that differ only in the people ordering agree on every
      entry outside the people window: header, links, spouse blocks and
      families stay where they are. */
  lemma AssembleFrame(d: Diagram, p: seq<string>, q: seq<string>)
    requires |p| == |q|
    ensures |Assemble(d, p)| == |Assemble(d, q)|
    ensures forall k :: 0 <= k < |Assemble(d, p)| && !(|d.header| <= k < |d.header| + |p|) ==>
      Assemble(d, p)[k] == Assemble(d, q)[k]
  {
    var tail := d.body.links + SpouseEntries(d.body.spouses) + d.body.families;
    assert Assemble(d, p) == d.header + p + tail;
    assert Assemble(d, q) == d.header + q + tail;
  }

  /** The text `dot` reads is the text of the line-by-line document. */
  lemma AssembleText(d: Diagram, people: seq<string>)
    ensures Join(Assemble(d, people)) == Join(AssembleLines(d, people))
  {
    var h := d.header + people + d.body.links;
    var e := SpouseEntries(d.body.spouses);
    var s := Join(d.body.spouses);
    var f := d.body.families;
    assert Assemble(d, people) == h + (e + f);
    assert AssembleLines(d, people) == h + (s + f);
    calc {
      Join(h + (e + f));
      { JoinAppend(h, e + f); }
      Join(h) + Join(e + f);
      { JoinAppend(e, f); JoinAppend(s, f); }
      Join(h) + Join(s + f);
      { JoinAppend(h, s + f); }
      Join(h + (s + f));
    }
  }

  /** Any reordering of the people of a parsed file is a reordering of the
      file's lines. */
  lemma AssemblePermutes(src: seq<string>, d: Diagram, people: seq<string>)
    requires Parse(src) == Success(d)
    requires multiset(people) == multiset(d.body.people)
    ensures multiset(AssembleLines(d, people)) == multiset(src)
  {
    SwapPeoplePermutes(d, d.body.people, people);
  }

  lemma SwapPeoplePermutes(d: Diagram, p: seq<string>, q: seq<string>)
    requires multiset(p) == multiset(q)
    ensures multiset(AssembleLines(d, p)) == multiset(AssembleLines(d, q))
  {
    var rest := BucketLines(d.body.(people := []));
    assert AssembleLines(d, p) == d.header + p + rest;
    assert AssembleLines(d, q) == d.header + q + rest;
  }

  /** The order the buckets are laid out in. */
  function Rank(p: Piece): nat {
    match p
    case Person(_) => 0
    case Link(_) => 1
    case Spouse(_) => 2
    case Family(_) => 3
  }

  /** The records already come in the order they are laid out in. */
  predicate InLayoutOrder(ps: seq<Piece>) {
    forall a, b :: 0 <= a < b < |ps| ==> Rank(ps[a]) <= Rank(ps[b])
  }

  lemma {:induction false} LaterBucketsEmpty(ps: seq<Piece>, r: nat)
    requires forall k :: 0 <= k < |ps| ==> Rank(ps[k]) <= r
    ensures var b := Distribute(ps);
      && (r < 1 ==> b.links == [])
      && (r < 2 ==> b.spouses == [])
      && (r < 3 ==> b.families == [])
    decreases |ps|
  {
    if |ps| > 0 {
      var init := ps[..|ps| - 1];
      assert forall k :: 0 <= k < |init| ==> init[k] == ps[k];
      assert Rank(ps[|ps| - 1]) <= r;
      LaterBucketsEmpty(init, r);
    }
  }

  /** Filing a record after everything of a later rank has been filed
      only appends its lines to the body. */
  lemma FileAppends(b: Buckets, p: Piece)
    requires Rank(p) < 1 ==> b.links == []
    requires Rank(p) < 2 ==> b.spouses == []
    requires Rank(p) < 3 ==> b.families == []
    ensures BucketLines(File(b, p)) == BucketLines(b) + Lines(p)
  {
    match p
    case Person(l) => FilePersonAppends(b, l);
    case Link(l) => FileLinkAppends(b, l);
    case Spouse(blk) => FileSpouseAppends(b, blk);
    case Family(l) =>
  }

  lemma FilePersonAppends(b: Buckets, l: string)
    requires b.links == [] && b.spouses == [] && b.families == []
    ensures BucketLines(File(b, Person(l))) == BucketLines(b) + [l]
  {
    assert Join(b.spouses) == [];
  }

  lemma FileLinkAppends(b: Buckets, l: string)
    requires b.spouses == [] && b.families == []
    ensures BucketLines(File(b, Link(l))) == BucketLines(b) + [l]
  {
    assert Join(b.spouses) == [];
  }

  lemma FileSpouseAppends(b: Buckets, blk: seq<string>)
    requires b.families == []
    ensures BucketLines(File(b, Spouse(blk))) == BucketLines(b) + blk
  {
    JoinAppend(b.spouses, [blk]);
    assert Join([blk]) == blk;
  }

  /** Records already in layout order come out of the buckets as they went
      in. */
  lemma {:induction false} DistributeInOrder(ps: seq<Piece>)
    requires InLayoutOrder(ps)
    ensures BucketLines(Distribute(ps)) == Flatten(ps)
    decreases |ps|
  {
    if |ps| > 0 {
      var init := ps[..|ps| - 1];
      var p := ps[|ps| - 1];
      assert ps == init + [p];
      assert forall k :: 0 <= k < |init| ==> init[k] == ps[k];
      assert InLayoutOrder(init);
      DistributeInOrder(init);
      FlattenAppend(init, [p]);
      assert Flatten([p]) == Lines(p);
      LaterBucketsEmpty(init, Rank(p));
      FileAppends(Distribute(init), p);
    }
  }

  /** A file whose body already lists people, then links, then spouse
      blocks, then families comes back unchanged when it is parsed and put
      together again with the parsed ordering. */
  lemma ParseAssembleRoundTrip(src: seq<string>, d: Diagram)
    requires Parse(src) == Success(d)
    requires InLayoutOrder(Cut(src[|d.header|..]))
    ensures AssembleLines(d, d.body.people) == src
    ensures Join(Assemble(d, d.body.people)) == Join(src)
  {
    var body := src[|d.header|..];
    assert src == d.header + body;
    assert d.body == Distribute(Cut(body));
    AssembleInOrder(d, body);
    AssembleText(d, d.body.people);
  }

  lemma AssembleInOrder(d: Diagram, body: seq<string>)
    requires InLayoutOrder(Cut(body))
    requires d.body == Distribute(Cut(body))
    ensures AssembleLines(d, d.body.people) == d.header + body
  {
    DistributeInOrder(Cut(body));
    assert BucketLines(d.body) == body;
    PeopleFirst(d);
  }

  /** The people bucket comes first among the body lines. */
  lemma PeopleFirst(d: Diagram)
    ensures AssembleLines(d, d.body.people) == d.header + BucketLines(d.body)
  {
    var b := d.body;
    var rest := BucketLines(b.(people := []));
    assert rest == b.links + Join(b.spouses) + b.families;
    assert BucketLines(b) == b.people + rest;
  }
}
