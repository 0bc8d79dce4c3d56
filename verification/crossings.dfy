/** The tail of `crossings`: reading the crossing count out of what
    `dot -v` wrote on its error stream. Starting `dot`, feeding it the
    document and collecting the stream are left out; the function starts
    from the lines of that stream. */
module Crossings {
  import opened Wrappers
  import opened PyStr

  /** The line the loop `for l in result.stderr: if 'crossings' in l:
      break` leaves in `l`: the first line holding `crossings`, or, when
      there is none, the last line; `None` for an empty stream, where `l`
      stays unbound. */
  function StopLine(diag: seq<string>): (r: Option<string>)
    ensures r.Some? <==> |diag| > 0
    ensures r.Some? ==> r.value in diag
  {
    match FirstContaining(diag, "crossings")
    case Some(k) => Some(diag[k])
    case None => if |diag| == 0 then None else Some(diag[|diag| - 1])
  }

  /** The loop stops at the first line holding `crossings`. */
  lemma StopAtReport(diag: seq<string>, k: nat)
    requires k < |diag| && Contains(diag[k], "crossings")
    requires forall j :: 0 <= j < k ==> !Contains(diag[j], "crossings")
    ensures StopLine(diag) == Some(diag[k])
  {
    var r := FirstContaining(diag, "crossings");
    assert r.Some? && r.value == k;
  }

  /** With no such line it runs off the end and leaves the last line. */
  lemma StopAtEnd(diag: seq<string>)
    requires |diag| > 0
    requires forall j :: 0 <= j < |diag| ==> !Contains(diag[j], "crossings")
    ensures StopLine(diag) == Some(diag[|diag| - 1])
  {
    assert FirstContaining(diag, "crossings").None?;
  }

  /** `int(l[p1+1:p2-1])` on the line the loop stops at: the text from just
      after its first colon up to, but not including, the character before
      `crossings`. `None` where the script fails: an empty stream, or text
      `int()` refuses. */
  function ExtractCount(diag: seq<string>): (r: Option<int>)
    ensures |diag| == 0 ==> r.None?
  {
    match StopLine(diag)
    case None => None
    case Some(l) => ParseInt(CountField(l))
  }

  /** Without a line holding `crossings` the script reads the last line of
      the stream anyway; `find` gives -1 for the missing word, so the field
      runs from after the first colon to two characters before the end. */
  lemma ExtractWithoutReport(diag: seq<string>)
    requires |diag| > 0
    requires forall k :: 0 <= k < |diag| ==> !Contains(diag[k], "crossings")
    ensures var l := diag[|diag| - 1];
      ExtractCount(diag) == ParseInt(Slice(l, Find(l, ":") + 1, -2))
  {
    var l := diag[|diag| - 1];
    assert ExtractCount(diag) == ParseInt(CountField(l)) by {
      StopAtEnd(diag);
    }
    assert CountField(l) == Slice(l, Find(l, ":") + 1, -2) by {
      UnreportedField(l);
    }
  }

  /** On a line without `crossings` the field ends two characters short of
      the end of the line. */
  lemma UnreportedField(l: string)
    requires !Contains(l, "crossings")
    ensures CountField(l) == Slice(l, Find(l, ":") + 1, -2)
  {
    assert Find(l, "crossings") == -1;
  }

  /** So a stream without a report whose last line is `<name>: <n> ` and its
      newline reads as `n` crossings, although `dot` reported none. */
  lemma ExtractStaleLine(pre: seq<string>, name: string, n: nat)
    requires forall k :: 0 <= k < |pre| ==> !Contains(pre[k], "crossings")
    requires !Contains(name, ":")
    requires !Contains(name + ": " + Decimal(n) + " \n", "crossings")
    ensures ExtractCount(pre + [name + ": " + Decimal(n) + " \n"]) == Some(n)
  {
    StaleRead(pre, name, Decimal(n));
    StaleParse(n);
  }

  /** The loop stops at such a line, with any digits, and the field it
      cuts out is a space and the digits. */
  lemma StaleRead(pre: seq<string>, name: string, digits: string)
    requires forall k :: 0 <= k < |pre| ==> !Contains(pre[k], "crossings")
    requires !Contains(name, ":")
    requires !Contains(name + ": " + digits + " \n", "crossings")
    ensures var l := name + ": " + digits + " \n";
      StopLine(pre + [l]) == Some(l) && CountField(l) == " " + digits
  {
    var l := name + ": " + digits + " \n";
    var diag := pre + [l];
    assert diag[|diag| - 1] == l;
    assert forall k :: 0 <= k < |pre| ==> diag[k] == pre[k];
    StopAtEnd(diag);
    UnreportedField(l);
    StaleColon(name, digits);
    StaleField(name, digits);
  }

  /** The field of such a line is the count after one space. */
  lemma StaleParse(n: nat)
    ensures ParseInt(" " + Decimal(n)) == Some(n)
  {
    var s := " " + Decimal(n);
    assert s + "" == s;
    ParseIntDecimal(" ", n, "");
  }

  lemma StaleColon(name: string, digits: string)
    requires !Contains(name, ":")
    ensures Find(name + ": " + digits + " \n", ":") == |name|
  {
    var tail := " " + digits + " \n";
    assert name + ": " + digits + " \n" == name + ":" + tail;
    ColonAt(name, tail);
  }

  lemma StaleField(name: string, digits: string)
    ensures Slice(name + ": " + digits + " \n", |name| + 1, -2) == " " + digits
  {
    var a := name + ":";
    var b := " " + digits;
    var c := " \n";
    assert name + ": " + digits + " \n" == a + b + c;
    MiddleSlice(a, b, c);
  }

  /** The reading the script evidently means: the count from the first line
      holding `crossings`, and no count at all when `dot` reported none. */
  function ReportedCount(diag: seq<string>): (r: Option<int>)
    ensures (forall k :: 0 <= k < |diag| ==> !Contains(diag[k], "crossings")) ==> r.None?
  {
    match FirstContaining(diag, "crossings")
    case None => None
    case Some(k) => ParseInt(CountField(diag[k]))
  }

  /** Where `dot` did report, the two readings agree. */
  lemma ReportedAgrees(diag: seq<string>, k: nat)
    requires k < |diag| && Contains(diag[k], "crossings")
    ensures ReportedCount(diag) == ExtractCount(diag)
  {
    var r := FirstContaining(diag, "crossings");
    assert r.Some?;
    StopAtReport(diag, r.value);
  }

  /** The corrected reading gives back the count of a report line. */
  lemma ReportedLine(pre: seq<string>, name: string, n: nat, rest: string, post: seq<string>)
    requires forall k :: 0 <= k < |pre| ==> !Contains(pre[k], "crossings")
    requires !Contains(name, ":") && !Contains(name, "crossings")
    ensures ReportedCount(pre + [ReportLine(name, n, rest)] + post) == Some(n)
  {
    var l := ReportLine(name, n, rest);
    var diag := pre + [l] + post;
    assert diag[|pre|] == l;
    CrossingsAt(name, Decimal(n), rest);
    ExtractReported(pre, name, n, rest, post);
    ReportedAgrees(diag, |pre|);
  }

  /** and reads no count out of the stale line `ExtractStaleLine` reads. */
  lemma ReportedStale(pre: seq<string>, name: string, n: nat)
    requires forall k :: 0 <= k < |pre| ==> !Contains(pre[k], "crossings")
    requires !Contains(name + ": " + Decimal(n) + " \n", "crossings")
    ensures ReportedCount(pre + [name + ": " + Decimal(n) + " \n"]) == None
  {
    var diag := pre + [name + ": " + Decimal(n) + " \n"];
    assert forall k :: 0 <= k < |pre| ==> diag[k] == pre[k];
    assert diag[|pre|] == name + ": " + Decimal(n) + " \n";
  }

  /** `l[l.find(':') + 1:l.find('crossings') - 1]`, the text `int()` reads. */
  function CountField(l: string): string {
    Slice(l, Find(l, ":") + 1, Find(l, "crossings") - 1)
  }

  /** A report line of the shape `dot -v` prints after crossing
      minimisation, `<name>: <n> crossings<rest>`. */
  function ReportLine(name: string, n: nat, rest: string): string {
    ReportText(name, Decimal(n), rest)
  }

  /** The same line with the count already written out as `digits`. */
  function ReportText(name: string, digits: string, rest: string): string {
    name + ": " + digits + " crossings" + rest
  }

  /** Behind lines that do not mention crossings, a report line gives back
      the count written into it, whatever follows. */
  lemma ExtractReported(pre: seq<string>, name: string, n: nat, rest: string, post: seq<string>)
    requires forall k :: 0 <= k < |pre| ==> !Contains(pre[k], "crossings")
    requires !Contains(name, ":") && !Contains(name, "crossings")
    ensures ExtractCount(pre + [ReportLine(name, n, rest)] + post) == Some(n)
  {
    var digits := Decimal(n);
    var l := ReportText(name, digits, rest);
    assert ReportLine(name, n, rest) == l;
    assert ExtractCount(pre + [l] + post) == ParseInt(CountField(l)) by {
      CrossingsAt(name, digits, rest);
      FirstReport(pre, l, post);
    }
    ReportField(name, digits, rest);
    ParseIntDecimal(" ", n, "");
    assert " " + digits + "" == CountField(l);
  }

  /** On a report line the field `int()` reads is a space and the digits. */
  lemma ReportField(name: string, digits: string, rest: string)
    requires !Contains(name, ":") && !Contains(name, "crossings")
    requires AllDigits(digits)
    ensures CountField(ReportText(name, digits, rest)) == " " + digits
  {
    var l := ReportText(name, digits, rest);
    var q := |name| + 2 + |digits| + 1;
    ReportColon(name, digits, rest);
    CrossingsAt(name, digits, rest);
    FieldAt(l, |name|, q);
    CountText(name, digits, rest);
  }

  lemma ReportColon(name: string, digits: string, rest: string)
    requires !Contains(name, ":")
    ensures Find(ReportText(name, digits, rest), ":") == |name|
  {
    var tail := " " + digits + " crossings" + rest;
    assert ReportText(name, digits, rest) == name + ":" + tail;
    ColonAt(name, tail);
  }

  lemma FieldAt(l: string, colon: int, word: int)
    requires Find(l, ":") == colon && Find(l, "crossings") == word
    ensures CountField(l) == Slice(l, colon + 1, word - 1)
  {
  }

  /** The loop stops at the report line. */
  lemma FirstReport(pre: seq<string>, l: string, post: seq<string>)
    requires forall k :: 0 <= k < |pre| ==> !Contains(pre[k], "crossings")
    requires Contains(l, "crossings")
    ensures StopLine(pre + [l] + post) == Some(l)
  {
    var diag := pre + [l] + post;
    assert diag[|pre|] == l;
    assert forall k :: 0 <= k < |pre| ==> diag[k] == pre[k];
    StopAtReport(diag, |pre|);
  }

  /** Between the colon and the space before `crossings` stand a space and
      the digits. */
  lemma CountText(name: string, digits: string, rest: string)
    ensures Slice(ReportText(name, digits, rest), |name| + 1, |name| + 2 + |digits|) == " " + digits
  {
    var a := name + ":";
    var b := " " + digits;
    var c := " crossings" + rest;
    assert ReportText(name, digits, rest) == a + b + c;
    MiddleSlice(a, b, c);
  }

  lemma MiddleSlice(a: string, b: string, c: string)
    ensures Slice(a + b + c, |a|, |a| + |b|) == b
  {
    assert (a + b + c)[|a|..|a| + |b|] == b;
  }

  /** The first colon of a line `<name>:<tail>` is the one after its name
      when the name holds none. */
  lemma ColonAt(name: string, tail: string)
    requires !Contains(name, ":")
    ensures Find(name + ":" + tail, ":") == |name|
  {
    var l := name + ":" + tail;
    assert l[|name|..|name| + 1] == ":";
    forall i | 0 <= i < |name|
      ensures !OccursAt(l, ":", i)
    {
      if OccursAt(l, ":", i) {
        assert l[i] == ':' == name[i];
        assert OccursAt(name, ":", i);
      }
    }
    FindLeftmost(l, ":", |name|);
  }

  /** Every character of the word `crossings` is a lower-case letter. */
  lemma WordIsLetters(x: int)
    requires 0 <= x < 9
    ensures 'a' <= "crossings"[x] <= 'z'
  {
  }

  /** The first `crossings` of a report line is the one after its count:
      anything earlier would have to overlap the name's end, the colon, the
      spaces or the digits, none of which is a letter. */
  lemma CrossingsAt(name: string, digits: string, rest: string)
    requires !Contains(name, "crossings")
    requires AllDigits(digits)
    ensures Find(ReportText(name, digits, rest), "crossings") == |name| + 2 + |digits| + 1
  {
    var l := ReportText(name, digits, rest);
    var q := |name| + 2 + |digits| + 1;
    assert l[q..q + 9] == "crossings";
    forall i | 0 <= i < q
      ensures !OccursAt(l, "crossings", i)
    {
      if OccursAt(l, "crossings", i) {
        if i + 9 <= |name| {
          assert l[i..i + 9] == name[i..i + 9];
          assert OccursAt(name, "crossings", i);
        } else {
          var m := if i < |name| then |name| else i;
          assert l[m] == "crossings"[m - i];
          WordIsLetters(m - i);
        }
      }
    }
    FindLeftmost(l, "crossings", q);
  }
}
