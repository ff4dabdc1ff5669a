/** The editor's front-matter text handling: writing the eight-field `---`
    block and splicing it over the first block already in the body
    (`handleMetaSubmit`), and reading `key: value` pairs back out of the first
    block (`extractMetaData`). Together they round-trip, and submitting the
    same data twice is the same as submitting it once. */
module FrontMatter {
  import opened Basics
  import opened Strings
  import PostMeta

  /** The metadata object: whatever keys were set, each with its text. */
  type Meta = map<string, string>

  /** `${data[key]}` in a template literal: the value, or the text
      "undefined" when the object has no such key. */
  function Lookup(d: Meta, key: string): string {
    if key in d then d[key] else "undefined"
  }

  /** The `key: value` lines of the block, one per known field, in order. */
  function MetaLines(d: Meta): (lines: seq<string>)
    ensures |lines| == |PostMeta.Fields|
    ensures forall i :: 0 <= i < |lines| ==> lines[i] == PostMeta.Fields[i] + ": " + Lookup(d, PostMeta.Fields[i])
  {
    seq(|PostMeta.Fields|, i requires 0 <= i < |PostMeta.Fields| => PostMeta.Fields[i] + ": " + Lookup(d, PostMeta.Fields[i]))
  }

  /** The block `handleMetaSubmit` writes: a `---` line, the field lines, a
      `---` line and one blank line. */
  function Block(d: Meta): (r: string)
    ensures StartsWith(r, "---\n") && EndsWith(r, "\n---\n\n")
  {
    var r := "---\n" + Join(MetaLines(d), "\n") + "\n---\n\n";
    assert r[..4] == "---\n";
    assert r[|r| - 6..] == "\n---\n\n";
    r
  }

  /** `body.replace(/---[\s\S]*?---\n\n/, "")`: only the first match is cut
      out, and that match need not sit at the start of the body. */
  function StripFirstBlock(body: string): (r: string)
    ensures (forall i, j :: !MatchSpan(body, "---", "---\n\n", i, j)) ==> r == body
    ensures forall i, j :: Leftmost(body, "---", "---\n\n", i, j) ==> r == body[..i] + body[j + 5..]
  {
    match LazyMatch(body, "---", "---\n\n")
    case None => body
    case Some(m) => body[..m.start] + body[m.closeAt + 5..]
  }

  /** The markdown after the metadata dialog is submitted with `d`: the new
      block in front of the body, whose leftmost block, wherever it sits, is
      cut out first. */
  function SubmitBody(d: Meta, body: string): (r: string)
    ensures (forall i, j :: !MatchSpan(body, "---", "---\n\n", i, j)) ==> r == Block(d) + body
    ensures forall i, j :: Leftmost(body, "---", "---\n\n", i, j) ==> r == Block(d) + body[..i] + body[j + 5..]
  {
    var block := Block(d);
    PrependStripped(block, body);
    block + StripFirstBlock(body)
  }

  /** What putting any text in front of a stripped body gives. */
  lemma PrependStripped(x: string, body: string)
    ensures (forall i, j :: !MatchSpan(body, "---", "---\n\n", i, j)) ==> x + StripFirstBlock(body) == x + body
    ensures forall i, j :: Leftmost(body, "---", "---\n\n", i, j) ==> x + StripFirstBlock(body) == x + body[..i] + body[j + 5..]
  {
    forall i, j | Leftmost(body, "---", "---\n\n", i, j)
      ensures x + StripFirstBlock(body) == x + body[..i] + body[j + 5..]
    {
      assert StripFirstBlock(body) == body[..i] + body[j + 5..];
    }
  }

  datatype Pair = Pair(key: string, value: string)

  /** One line of the captured block: split at the first colon, the key is
      the trimmed text before it, the value the trimmed text after it, later
      colons included. The line counts only when the untrimmed key and the
      trimmed value are both non-empty. */
  function ParseLine(line: string): (r: Option<Pair>)
    ensures r.Some? ==> Trimmed(r.value.key) && Trimmed(r.value.value) && r.value.value != ""
  {
    var parts := Split(line, ":");
    var key := parts[0];
    var value := Trim(Join(parts[1..], ":"));
    if key != "" && value != "" then Some(Pair(Trim(key), value)) else None
  }

  /** What `ParseLine` reads, in terms of the first colon: nothing from a
      line without one; otherwise the trimmed text before and after it,
      when the text before is non-empty and the text after is not blank. */
  lemma ParseLineAt(line: string)
    ensures ':' !in line ==> ParseLine(line).None?
    ensures IndexOf(line, ":", 0).Some? ==>
              var i := IndexOf(line, ":", 0).value;
              ParseLine(line) == if line[..i] != "" && Trim(line[i + 1..]) != "" then Some(Pair(Trim(line[..i]), Trim(line[i + 1..]))) else None
  {
    var parts := Split(line, ":");
    CharOccurs(line, ':');
    match IndexOf(line, ":", 0)
    case None =>
      assert parts == [line];
      assert Join(parts[1..], ":") == "";
    case Some(i) =>
      SplitTail(line, ":", i);
  }

  /** The pair each line yields, in line order. */
  function ParseAll(lines: seq<string>): (ps: seq<Option<Pair>>)
    ensures |ps| == |lines|
    ensures forall i :: 0 <= i < |lines| ==> ps[i] == ParseLine(lines[i])
  {
    seq(|lines|, i requires 0 <= i < |lines| => ParseLine(lines[i]))
  }

  /** One step of the `forEach`: a pair that counts is assigned. The object
      is a map here, so the key `__proto__` is recorded like any other. */
  function Assign(acc: Meta, o: Option<Pair>): (r: Meta)
    ensures o.None? ==> r == acc
    ensures o.Some? ==> o.value.key in r && r[o.value.key] == o.value.value
    ensures o.Some? ==> forall k :: k != o.value.key ==> (k in r <==> k in acc) && (k in acc ==> r[k] == acc[k])
  {
    match o
    case Some(p) => acc[p.key := p.value]
    case None => acc
  }

  /** The pair at `i` counts, and no later pair assigns its key. */
  predicate LastFor(ps: seq<Option<Pair>>, i: int) {
    && 0 <= i < |ps| && ps[i].Some?
    && forall j :: i < j < |ps| && ps[j].Some? ==> ps[j].value.key != ps[i].value.key
  }

  /** No pair assigns `k`. */
  predicate Untouched(ps: seq<Option<Pair>>, k: string) {
    forall j :: 0 <= j < |ps| && ps[j].Some? ==> ps[j].value.key != k
  }

  /** Every pair that counts is recorded, and the last pair for a key
      supplies its value. */
  predicate Records(r: Meta, ps: seq<Option<Pair>>) {
    && (forall i :: 0 <= i < |ps| && ps[i].Some? ==> ps[i].value.key in r)
    && (forall i :: 0 <= i < |ps| && LastFor(ps, i) ==> r[ps[i].value.key] == ps[i].value.value)
  }

  /** The assignments of the `forEach` over the lines: each pair that counts
      is assigned in turn, so a later pair wins over an earlier one with the
      same key. Every key of the result was assigned by a pair or was already
      there; every pair is recorded, the last one for a key winning; and a key
      no pair assigns keeps its value. */
  function AssignAll(ps: seq<Option<Pair>>, acc: Meta): (r: Meta)
    ensures forall k :: k in r ==> (k in acc && r[k] == acc[k]) || Some(Pair(k, r[k])) in ps
    ensures forall k :: k in acc ==> k in r
    ensures Records(r, ps)
    ensures forall k :: k in acc && Untouched(ps, k) ==> r[k] == acc[k]
    decreases |ps|
  {
    if ps == [] then acc
    else
      var r := AssignAll(ps[1..], Assign(acc, ps[0]));
      AssignSound(ps, acc, r);
      AssignStep(ps, acc, r);
      r
  }

  /** Assigning the first pair and then the rest adds only keys that some
      pair assigns, with that pair's value, and drops none. */
  lemma AssignSound(ps: seq<Option<Pair>>, acc: Meta, r: Meta)
    requires ps != []
    requires forall k :: k in r ==> (k in Assign(acc, ps[0]) && r[k] == Assign(acc, ps[0])[k]) || Some(Pair(k, r[k])) in ps[1..]
    requires forall k :: k in Assign(acc, ps[0]) ==> k in r
    ensures forall k :: k in r ==> (k in acc && r[k] == acc[k]) || Some(Pair(k, r[k])) in ps
    ensures forall k :: k in acc ==> k in r
  {
    forall k | k in r
      ensures (k in acc && r[k] == acc[k]) || Some(Pair(k, r[k])) in ps
    {
      if Some(Pair(k, r[k])) in ps[1..] {
        assert ps == [ps[0]] + ps[1..];
      } else if ps[0].Some? && k == ps[0].value.key {
        assert ps[0] == Some(Pair(k, r[k]));
      }
    }
  }

  /** Assigning the first pair and then the rest keeps every pair recorded
      and every untouched key as it was. */
  lemma AssignStep(ps: seq<Option<Pair>>, acc: Meta, r: Meta)
    requires ps != []
    requires forall k :: k in Assign(acc, ps[0]) ==> k in r
    requires Records(r, ps[1..])
    requires forall k :: k in Assign(acc, ps[0]) && Untouched(ps[1..], k) ==> r[k] == Assign(acc, ps[0])[k]
    ensures Records(r, ps)
    ensures forall k :: k in acc && Untouched(ps, k) ==> r[k] == acc[k]
  {
    var next := Assign(acc, ps[0]);
    var tail := ps[1..];
    forall i | 0 <= i < |ps| && ps[i].Some?
      ensures ps[i].value.key in r
    {
      if i > 0 {
        assert tail[i - 1] == ps[i];
      }
    }
    forall i | LastFor(ps, i)
      ensures r[ps[i].value.key] == ps[i].value.value
    {
      if i == 0 {
        var k := ps[0].value.key;
        forall j | 0 <= j < |tail| && tail[j].Some?
          ensures tail[j].value.key != k
        {
          assert tail[j] == ps[j + 1];
        }
      } else {
        assert tail[i - 1] == ps[i];
        forall j | i - 1 < j < |tail| && tail[j].Some?
          ensures tail[j].value.key != tail[i - 1].value.key
        {
          assert tail[j] == ps[j + 1];
        }
        assert LastFor(tail, i - 1);
      }
    }
    forall k | k in acc && Untouched(ps, k)
      ensures r[k] == acc[k]
    {
      forall j | 0 <= j < |tail| && tail[j].Some?
        ensures tail[j].value.key != k
      {
        assert tail[j] == ps[j + 1];
      }
    }
  }

  /** Every key of `r` was read, with that value, from one of `lines`. */
  predicate ReadFrom(r: Meta, lines: seq<string>) {
    forall k :: k in r ==> Some(Pair(k, r[k])) in ParseAll(lines)
  }

  /** `r` is what the lines give: every key was read, with its value, from a
      line; every line that parses is recorded; and the last line for a key
      supplies its value. */
  predicate ReadExactly(r: Meta, lines: seq<string>) {
    ReadFrom(r, lines) && Records(r, ParseAll(lines))
  }

  /** The metadata `forEach` builds from the captured lines, starting from
      an empty object. */
  function ReadLines(lines: seq<string>): (r: Meta)
    ensures ReadExactly(r, lines)
  {
    AssignAll(ParseAll(lines), map[])
  }

  /** `extractMetaData`: with no match of `---\n([\s\S]*?)\n---` the metadata
      is left as it was; otherwise it is replaced by what the lines captured
      by the leftmost match give, which `ReadLines` pins down exactly. */
  function ExtractMeta(content: string, current: Meta): (r: Meta)
    ensures (forall i, j :: !MatchSpan(content, "---\n", "\n---", i, j)) ==> r == current
    ensures forall i, j :: Leftmost(content, "---\n", "\n---", i, j) ==> r == ReadLines(Split(content[i + 4..j], "\n"))
  {
    match LazyMatch(content, "---\n", "\n---")
    case None => current
    case Some(m) =>
      var lines := Split(content[m.start + 4..m.closeAt], "\n");
      var r := ReadLines(lines);
      forall i, j | Leftmost(content, "---\n", "\n---", i, j)
        ensures r == ReadLines(Split(content[i + 4..j], "\n"))
      {
        LeftmostUnique(content, "---\n", "\n---", i, j, m.start, m.closeAt);
      }
      r
  }

  /** Once the match is known, the metadata is what its captured lines give. */
  lemma ExtractAt(content: string, current: Meta, m: Span)
    requires LazyMatch(content, "---\n", "\n---") == Some(m)
    ensures m.start + 4 <= m.closeAt <= |content|
    ensures ExtractMeta(content, current) == ReadLines(Split(content[m.start + 4..m.closeAt], "\n"))
  {
    assert MatchSpan(content, "---\n", "\n---", m.start, m.closeAt);
  }

  // ---------------------------------------------------------------------
  // Round trip and idempotence.

  /** No field the block writes contains a line break. */
  predicate NoBreaks(d: Meta) {
    forall i :: 0 <= i < |PostMeta.Fields| ==> '\n' !in Lookup(d, PostMeta.Fields[i])
  }

  /** A value that reads back unchanged: non-empty, no white space at the
      ends, no line break. */
  predicate Readable(v: string) {
    v != "" && Trimmed(v) && '\n' !in v
  }

  /** Every line break of `j` is followed, inside `j`, by a character that is
      neither a line break nor a dash. */
  predicate SafeBreaks(j: string) {
    forall q :: 0 <= q < |j| && j[q] == '\n' ==> q + 1 < |j| && j[q + 1] != '\n' && j[q + 1] != '-'
  }

  lemma {:induction false} JoinSafe(lines: seq<string>)
    requires forall i :: 0 <= i < |lines| ==> lines[i] != "" && '\n' !in lines[i] && lines[i][0] != '-'
    ensures SafeBreaks(Join(lines, "\n"))
    decreases |lines|
  {
    if |lines| == 0 {
    } else if |lines| == 1 {
      assert Join(lines, "\n") == lines[0];
    } else {
      var l0 := lines[0];
      var rest := Join(lines[1..], "\n");
      var j := Join(lines, "\n");
      assert j == l0 + "\n" + rest;
      JoinSafe(lines[1..]);
      assert rest[0] == lines[1][0] by {
        if |lines| == 2 {
          assert rest == lines[1];
        } else {
          assert rest == lines[1] + "\n" + Join(lines[2..], "\n");
        }
      }
      forall q | 0 <= q < |j|
        ensures j[q] == '\n' ==> q + 1 < |j| && j[q + 1] != '\n' && j[q + 1] != '-'
      {
        if q < |l0| {
          assert j[q] == l0[q];
        } else if q == |l0| {
          assert j[q + 1] == rest[0];
        } else {
          assert j[q] == rest[q - |l0| - 1];
          if j[q] == '\n' {
            assert j[q + 1] == rest[q - |l0|];
          }
        }
      }
    }
  }

  lemma MetaLinesSafe(d: Meta)
    requires NoBreaks(d)
    ensures SafeBreaks(Join(MetaLines(d), "\n"))
  {
    var lines := MetaLines(d);
    forall i | 0 <= i < |lines|
      ensures lines[i] != "" && '\n' !in lines[i] && lines[i][0] != '-'
    {
      var k := PostMeta.Fields[i];
      assert k != "" && '\n' !in k && k[0] != '-';
      assert lines[i] == k + ": " + Lookup(d, k);
      assert lines[i][0] == k[0];
    }
    JoinSafe(lines);
  }

  /** Where each character of a block followed by more text sits. */
  lemma BlockLayout(j: string, x: string)
    ensures var s := "---\n" + j + "\n---\n\n" + x;
      && |s| == |j| + 10 + |x|
      && s[0..3] == "---" && s[0..4] == "---\n" && s[3] == '\n'
      && (forall q :: 0 <= q < |j| ==> s[4 + q] == j[q])
      && s[4..4 + |j|] == j
      && s[4 + |j|] == '\n' && s[5 + |j|] == '-' && s[6 + |j|] == '-' && s[7 + |j|] == '-'
      && s[4 + |j|..8 + |j|] == "\n---"
      && s[5 + |j|..10 + |j|] == "---\n\n"
      && s[10 + |j|..] == x
  {
  }

  /** After a written block, the first `---` ... `---\n\n` match is exactly
      that block. */
  lemma {:induction false} StripAfterBlock(j: string, x: string)
    requires SafeBreaks(j)
    ensures StripFirstBlock("---\n" + j + "\n---\n\n" + x) == x
  {
    var s := "---\n" + j + "\n---\n\n" + x;
    var n := |j|;
    BlockLayout(j, x);
    IndexOfIs(s, "---", 0, 0);
    forall p | 3 <= p < 5 + n
      ensures !OccursAt(s, "---\n\n", p)
    {
      if p + 4 < 4 + n {
        assert s[p + 3] == j[p - 1] && s[p + 4] == j[p];
        if s[p + 3] == '\n' {
          Mismatch(s, "---\n\n", p, 4);
        } else {
          Mismatch(s, "---\n\n", p, 3);
        }
      } else if p + 4 == 4 + n {
        assert s[p + 3] == j[n - 1];
        Mismatch(s, "---\n\n", p, 3);
      } else if p + 4 < 8 + n {
        Mismatch(s, "---\n\n", p, 4);
      } else {
        Mismatch(s, "---\n\n", p, 3);
      }
    }
    IndexOfIs(s, "---\n\n", 3, 5 + n);
    assert LazyMatch(s, "---", "---\n\n") == Some(Span(0, 5 + n));
  }

  /** After a written block, the first `---\n` ... `\n---` match captures
      exactly the field lines. */
  lemma {:induction false} CaptureAfterBlock(j: string, x: string)
    requires SafeBreaks(j)
    ensures LazyMatch("---\n" + j + "\n---\n\n" + x, "---\n", "\n---") == Some(Span(0, 4 + |j|))
  {
    var s := "---\n" + j + "\n---\n\n" + x;
    var n := |j|;
    BlockLayout(j, x);
    IndexOfIs(s, "---\n", 0, 0);
    forall p | 4 <= p < 4 + n
      ensures !OccursAt(s, "\n---", p)
    {
      assert s[p] == j[p - 4];
      if s[p] != '\n' {
        Mismatch(s, "\n---", p, 0);
      } else {
        assert s[p + 1] == j[p - 3];
        Mismatch(s, "\n---", p, 1);
      }
    }
    IndexOfIs(s, "\n---", 4, 4 + n);
  }

  /** A written line reads back as its key and value. */
  lemma ParseFieldLine(k: string, v: string)
    requires k != "" && ':' !in k && Trimmed(k)
    requires Readable(v)
    ensures ParseLine(k + ": " + v) == Some(Pair(k, v))
  {
    var line := k + ": " + v;
    assert IndexOf(line, ":", 0) == Some(|k|) by {
      CharOccurs(line, ':');
      assert line[|k|] == ':';
      forall q | 0 <= q < |k|
        ensures !OccursAt(line, ":", q)
      {
        assert line[q] == k[q];
      }
      IndexOfIs(line, ":", 0, |k|);
    }
    assert line[..|k|] == k;
    assert line[|k| + 1..] == " " + v;
    assert Trim(" " + v) == v by {
      TrimAfterSpace(v);
    }
    assert Trim(k) == k;
    ParseLineAt(line);
  }

  /** Pairs with distinct keys leave each key bound to its own value and
      nothing else changed. */
  lemma AssignDistinct(ps: seq<Option<Pair>>, keys: seq<string>, vals: seq<string>, acc: Meta)
    requires |ps| == |keys| == |vals|
    requires forall i :: 0 <= i < |ps| ==> ps[i] == Some(Pair(keys[i], vals[i]))
    requires forall i, i' :: 0 <= i < i' < |keys| ==> keys[i] != keys[i']
    ensures forall i :: 0 <= i < |keys| ==> keys[i] in AssignAll(ps, acc) && AssignAll(ps, acc)[keys[i]] == vals[i]
    ensures forall k :: k in AssignAll(ps, acc) <==> k in acc || k in keys
    ensures forall k :: k in acc && k !in keys ==> AssignAll(ps, acc)[k] == acc[k]
  {
    var r := AssignAll(ps, acc);
    forall i | 0 <= i < |keys|
      ensures keys[i] in r && r[keys[i]] == vals[i]
    {
      assert LastFor(ps, i);
    }
    forall k
      ensures k in r <==> k in acc || k in keys
    {
      if k in r && k !in acc {
        var i :| 0 <= i < |ps| && ps[i] == Some(Pair(k, r[k]));
        assert keys[i] == k;
      }
    }
    forall k | k in acc && k !in keys
      ensures r[k] == acc[k]
    {
      assert Untouched(ps, k);
    }
  }

  lemma FieldsDistinct()
    ensures forall i, i' :: 0 <= i < i' < |PostMeta.Fields| ==> PostMeta.Fields[i] != PostMeta.Fields[i']
  {
    var f := PostMeta.Fields;
    forall i, i' | 0 <= i < i' < |f|
      ensures f[i] != f[i']
    {
      assert |f[i]| != |f[i']| || f[i][0] != f[i'][0];
    }
  }

  /** Reading a written block followed by any text parses exactly the lines
      the block was joined from. */
  lemma ReadAfterBlock(lines: seq<string>, x: string, current: Meta)
    requires |lines| >= 1
    requires forall i :: 0 <= i < |lines| ==> '\n' !in lines[i]
    requires SafeBreaks(Join(lines, "\n"))
    ensures ExtractMeta("---\n" + Join(lines, "\n") + "\n---\n\n" + x, current) == ReadLines(lines)
  {
    var j := Join(lines, "\n");
    var s := "---\n" + j + "\n---\n\n" + x;
    assert LazyMatch(s, "---\n", "\n---") == Some(Span(0, 4 + |j|)) by {
      CaptureAfterBlock(j, x);
    }
    assert Split(s[4..4 + |j|], "\n") == lines by {
      BlockLayout(j, x);
      SplitJoin(lines, '\n');
    }
    ExtractAt(s, current, Span(0, 4 + |j|));
  }

  /** Reading a submitted body parses exactly the field lines of its block. */
  lemma ReadBlock(d: Meta, body: string, current: Meta)
    requires NoBreaks(d)
    ensures ExtractMeta(SubmitBody(d, body), current) == ReadLines(MetaLines(d))
  {
    var lines := MetaLines(d);
    MetaLinesSafe(d);
    forall i | 0 <= i < |lines|
      ensures '\n' !in lines[i]
    {
      var k := PostMeta.Fields[i];
      assert '\n' !in k;
      assert lines[i] == k + ": " + Lookup(d, k);
    }
    ReadAfterBlock(lines, StripFirstBlock(body), current);
  }

  /** One `key: value` line per key, in order. */
  function KeyLines(keys: seq<string>, d: Meta): (lines: seq<string>)
    ensures |lines| == |keys|
    ensures forall i :: 0 <= i < |keys| ==> lines[i] == keys[i] + ": " + Lookup(d, keys[i])
  {
    seq(|keys|, i requires 0 <= i < |keys| => keys[i] + ": " + Lookup(d, keys[i]))
  }

  /** Reading the lines written for distinct keys, each able to head a line
      and each with a readable value, binds every key, and nothing else, to
      its value. */
  lemma ReadKeyLines(keys: seq<string>, d: Meta)
    requires forall i, i' :: 0 <= i < i' < |keys| ==> keys[i] != keys[i']
    requires forall i :: 0 <= i < |keys| ==> keys[i] != "" && ':' !in keys[i] && Trimmed(keys[i])
    requires forall i :: 0 <= i < |keys| ==> Readable(Lookup(d, keys[i]))
    ensures forall k :: k in ReadLines(KeyLines(keys, d)) <==> k in keys
    ensures forall k :: k in keys ==> ReadLines(KeyLines(keys, d))[k] == Lookup(d, k)
  {
    var lines := KeyLines(keys, d);
    var ps := ParseAll(lines);
    var vals := seq(|keys|, i requires 0 <= i < |keys| => Lookup(d, keys[i]));
    forall i | 0 <= i < |ps|
      ensures ps[i] == Some(Pair(keys[i], vals[i]))
    {
      ParseFieldLine(keys[i], vals[i]);
    }
    AssignDistinct(ps, keys, vals, map[]);
    var r := AssignAll(ps, map[]);
    forall k | k in keys
      ensures r[k] == Lookup(d, k)
    {
      var i :| 0 <= i < |keys| && keys[i] == k;
      assert r[keys[i]] == vals[i];
    }
  }

  /** Every field name can head a line: non-empty, without a colon, and
      without white space at its ends. */
  lemma FieldKeys(i: int)
    requires 0 <= i < |PostMeta.Fields|
    ensures PostMeta.Fields[i] != "" && ':' !in PostMeta.Fields[i] && Trimmed(PostMeta.Fields[i])
  {
  }

  /** Assigning the parsed field lines binds every field, and nothing else,
      to its value. */
  lemma AssignFields(d: Meta)
    requires forall i :: 0 <= i < |PostMeta.Fields| ==> Readable(Lookup(d, PostMeta.Fields[i]))
    ensures forall k :: k in ReadLines(MetaLines(d)) <==> k in PostMeta.Fields
    ensures forall k :: k in PostMeta.Fields ==> ReadLines(MetaLines(d))[k] == Lookup(d, k)
  {
    FieldsDistinct();
    forall i | 0 <= i < |PostMeta.Fields|
      ensures PostMeta.Fields[i] != "" && ':' !in PostMeta.Fields[i] && Trimmed(PostMeta.Fields[i])
    {
      FieldKeys(i);
    }
    assert MetaLines(d) == KeyLines(PostMeta.Fields, d);
    ReadKeyLines(PostMeta.Fields, d);
  }

  /** Reading back a body produced by the dialog yields exactly the eight
      submitted values, provided each is non-empty, has no white space at its
      ends and no line break. A key the form did not hold comes back as the
      text "undefined", which is what the block holds for it. */
  lemma SubmitRoundTrip(d: Meta, body: string, current: Meta)
    requires forall i :: 0 <= i < |PostMeta.Fields| ==> Readable(Lookup(d, PostMeta.Fields[i]))
    ensures var r := ExtractMeta(SubmitBody(d, body), current);
      && (forall k :: k in r <==> k in PostMeta.Fields)
      && (forall k :: k in PostMeta.Fields ==> r[k] == Lookup(d, k))
  {
    forall i | 0 <= i < |PostMeta.Fields|
      ensures '\n' !in Lookup(d, PostMeta.Fields[i])
    {
      assert Readable(Lookup(d, PostMeta.Fields[i]));
    }
    ReadBlock(d, body, current);
    AssignFields(d);
  }

  /** A later submission replaces the block an earlier one wrote, provided
      no value of the earlier data contains a line break: the later
      submission cuts out exactly that block. */
  lemma SubmitReplaces(d: Meta, earlier: Meta, body: string)
    requires NoBreaks(earlier)
    ensures SubmitBody(d, SubmitBody(earlier, body)) == SubmitBody(d, body)
  {
    var j := Join(MetaLines(earlier), "\n");
    MetaLinesSafe(earlier);
    StripAfterBlock(j, StripFirstBlock(body));
  }

  /** Submitting the same data twice gives the same body as submitting it
      once, provided no field value contains a line break. */
  lemma SubmitTwice(d: Meta, body: string)
    requires NoBreaks(d)
    ensures SubmitBody(d, SubmitBody(d, body)) == SubmitBody(d, body)
  {
    SubmitReplaces(d, d, body);
  }

  /** The closing lines of a block join to its closing text. */
  lemma JoinClose()
    ensures Join(["---", "", ""], "\n") == "---\n\n"
  {
    var tail: seq<string> := ["---", "", ""];
    assert tail[1..] == ["", ""] && tail[1..][1..] == [""];
  }

  /** Joining the lines of a block gives the block. */
  lemma JoinFramed(lines: seq<string>)
    requires |lines| >= 1
    ensures Join(["---"] + lines + ["---", "", ""], "\n") == "---\n" + Join(lines, "\n") + "\n---\n\n"
  {
    var tail: seq<string> := ["---", "", ""];
    var j := Join(lines, "\n");
    var rest := lines + tail;
    assert Join(rest, "\n") == j + "\n" + "---\n\n" by {
      JoinClose();
      JoinAppend(lines, tail, "\n");
    }
    assert ["---"] + lines + tail == ["---"] + rest;
    assert Join(["---"] + rest, "\n") == "---" + "\n" + Join(rest, "\n") by {
      assert Join(["---"], "\n") == "---";
      JoinAppend(["---"], rest, "\n");
    }
    Frame(j);
  }

  lemma Frame(j: string)
    ensures "---" + "\n" + (j + "\n" + "---\n\n") == "---\n" + j + "\n---\n\n"
  {
    assert "---" + "\n" == "---\n";
    assert "\n" + "---\n\n" == "\n---\n\n";
  }

  /** Framing lines without breaks adds only lines without breaks. */
  lemma FramedBreakFree(lines: seq<string>)
    requires forall k :: 0 <= k < |lines| ==> '\n' !in lines[k]
    ensures var all := ["---"] + lines + ["---", "", ""];
      forall k :: 0 <= k < |all| ==> '\n' !in all[k]
  {
    var head: seq<string> := ["---"];
    var tail: seq<string> := ["---", "", ""];
    assert '\n' !in "---" by {
      assert "---"[0] != '\n' && "---"[1] != '\n' && "---"[2] != '\n';
    }
    var all := head + lines + tail;
    forall k | 0 <= k < |all|
      ensures '\n' !in all[k]
    {
      if k == 0 {
        assert all[k] == head[0];
      } else if k <= |lines| {
        assert all[k] == lines[k - 1];
      } else {
        assert all[k] == tail[k - 1 - |lines|];
      }
    }
  }

  /** The lines of a block written around any lines without breaks. */
  lemma FramedLines(lines: seq<string>)
    requires |lines| >= 1
    requires forall k :: 0 <= k < |lines| ==> '\n' !in lines[k]
    ensures Split("---\n" + Join(lines, "\n") + "\n---\n\n", "\n") == ["---"] + lines + ["---", "", ""]
  {
    var all := ["---"] + lines + ["---", "", ""];
    assert forall k :: 0 <= k < |all| ==> '\n' !in all[k] by {
      FramedBreakFree(lines);
    }
    var text := "---\n" + Join(lines, "\n") + "\n---\n\n";
    assert Join(all, "\n") == text by {
      JoinFramed(lines);
    }
    assert Split(Join(all, "\n"), "\n") == all by {
      SplitJoin(all, '\n');
    }
  }

  /** The block's lines: `---`, the field lines in order, `---`, and the
      empty line that ends it, provided no value contains a line break. */
  lemma BlockLines(d: Meta)
    requires NoBreaks(d)
    ensures Split(Block(d), "\n") == ["---"] + MetaLines(d) + ["---", "", ""]
  {
    var lines := MetaLines(d);
    forall i | 0 <= i < |lines|
      ensures '\n' !in lines[i]
    {
      var k := PostMeta.Fields[i];
      assert '\n' !in k;
      assert lines[i] == k + ": " + Lookup(d, k);
    }
    FramedLines(lines);
  }
}
