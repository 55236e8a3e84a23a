/** The text record inside an envelope, `publicWord|epoch|type|content`,
    and the way `Payload::decode` in src/objects/payload.cpp cuts it apart
    with `std::string::find` and `substr`. */
module Records {
  import opened Bytes

  /** The four text fields of a record. */
  datatype Fields = Fields(publicWord: Bytes, epoch: Bytes, ptype: Bytes, content: Bytes)

  /** The fields joined with '|'. */
  function Join(f: Fields): Bytes {
    f.publicWord + ([PIPE] + (f.epoch + ([PIPE] + (f.ptype + ([PIPE] + f.content)))))
  }

  /** The first index at or after `from` holding `c`, |s| when there is
      none. */
  function FirstFrom(s: Bytes, c: byte, from: nat): (i: nat)
    requires from <= |s|
    ensures from <= i <= |s|
    ensures i < |s| ==> s[i] == c
    ensures forall j :: from <= j < i ==> s[j] != c
    decreases |s| - from
  {
    if from == |s| || s[from] == c then from else FirstFrom(s, c, from + 1)
  }

  /** `std::string::find(c, from)`: the first index at or after `from`
      holding `c`, None for `npos`. */
  function Find(s: Bytes, c: byte, from: nat): (r: Option<nat>)
    requires from <= |s|
    ensures r.Some? ==> from <= r.value < |s| && s[r.value] == c
    ensures r.Some? ==> forall j :: from <= j < r.value ==> s[j] != c
    ensures r.None? ==> forall j :: from <= j < |s| ==> s[j] != c
  {
    var i := FirstFrom(s, c, from);
    if i < |s| then Some(i) else None
  }

  /** The split in `decode`: the text before the first '|', between the
      first and the second, between the second and the third, and the
      rest (which may hold more '|'). None with fewer than three '|'. */
  function SplitRecord(s: Bytes): Option<Fields> {
    match Find(s, PIPE, 0)
    case None => None
    case Some(pos1) =>
      match Find(s, PIPE, pos1 + 1)
      case None => None
      case Some(pos2) =>
        match Find(s, PIPE, pos2 + 1)
        case None => None
        case Some(pos3) => Some(Fields(s[..pos1], s[pos1 + 1..pos2], s[pos2 + 1..pos3], s[pos3 + 1..]))
  }

  /** `SplitRecord` cuts at the delimiters `Find` reports. */
  lemma SplitAtDelimiters(s: Bytes, pos1: nat, pos2: nat, pos3: nat)
    requires pos1 < pos2 < pos3 < |s|
    requires Find(s, PIPE, 0) == Some(pos1)
    requires Find(s, PIPE, pos1 + 1) == Some(pos2)
    requires Find(s, PIPE, pos2 + 1) == Some(pos3)
    ensures SplitRecord(s) == Some(Fields(s[..pos1], s[pos1 + 1..pos2], s[pos2 + 1..pos3], s[pos3 + 1..]))
  {
  }

  /** The text from `lo` on, cut around the character at `k`. */
  lemma CutAround(s: Bytes, lo: nat, k: nat)
    requires lo <= k < |s|
    ensures s[lo..] == s[lo..k] + ([s[k]] + s[k + 1..])
  {
  }

  /** A stretch without `c` as a slice without `c`. */
  lemma NoneBetween(s: Bytes, lo: nat, hi: nat, c: byte)
    requires lo <= hi <= |s|
    requires forall j :: lo <= j < hi ==> s[j] != c
    ensures c !in s[lo..hi]
  {
    forall k | 0 <= k < hi - lo ensures s[lo..hi][k] != c {
      assert s[lo..hi][k] == s[lo + k];
    }
  }

  /** A successful split gives fields that join back into the record, the
      first three without '|'. */
  lemma SplitRecordJoins(s: Bytes)
    ensures var r := SplitRecord(s);
      && (r.Some? ==> Join(r.value) == s)
      && (r.Some? ==> PIPE !in r.value.publicWord && PIPE !in r.value.epoch && PIPE !in r.value.ptype)
  {
    var r := SplitRecord(s);
    if r.Some? {
      var pos1 := Find(s, PIPE, 0).value;
      var pos2 := Find(s, PIPE, pos1 + 1).value;
      var pos3 := Find(s, PIPE, pos2 + 1).value;
      SplitAtDelimiters(s, pos1, pos2, pos3);
      JoinOfCuts(s, pos1, pos2, pos3);
      CutsWithoutPipe(s, pos1, pos2, pos3);
    }
  }

  /** The first three pieces cut at the first three '|' hold no '|'. */
  lemma CutsWithoutPipe(s: Bytes, pos1: nat, pos2: nat, pos3: nat)
    requires pos1 < pos2 < pos3 < |s|
    requires Find(s, PIPE, 0) == Some(pos1)
    requires Find(s, PIPE, pos1 + 1) == Some(pos2)
    requires Find(s, PIPE, pos2 + 1) == Some(pos3)
    ensures PIPE !in s[..pos1] && PIPE !in s[pos1 + 1..pos2] && PIPE !in s[pos2 + 1..pos3]
  {
    NoneBetween(s, 0, pos1, PIPE);
    NoneBetween(s, pos1 + 1, pos2, PIPE);
    NoneBetween(s, pos2 + 1, pos3, PIPE);
    assert s[..pos1] == s[0..pos1];
  }

  /** Cutting at three '|' and joining again gives the text back. */
  lemma JoinOfCuts(s: Bytes, pos1: nat, pos2: nat, pos3: nat)
    requires pos1 < pos2 < pos3 < |s| && s[pos1] == PIPE && s[pos2] == PIPE && s[pos3] == PIPE
    ensures Join(Fields(s[..pos1], s[pos1 + 1..pos2], s[pos2 + 1..pos3], s[pos3 + 1..])) == s
  {
    CutAround(s, 0, pos1);
    CutAround(s, pos1 + 1, pos2);
    CutAround(s, pos2 + 1, pos3);
    assert s[..pos1] == s[0..pos1];
    assert s == s[0..];
  }

  /** In `a`, a '|'-free field, a '|' and a rest, the first '|' from the
      end of `a` on is the one right after the field. */
  lemma FindAfterField(a: Bytes, field: Bytes, rest: Bytes)
    requires PIPE !in field
    ensures var s := a + (field + ([PIPE] + rest));
      Find(s, PIPE, |a|) == Some(|a| + |field|)
  {
    var s := a + (field + ([PIPE] + rest));
    var k := |a| + |field|;
    assert s[k] == PIPE;
    forall j | |a| <= j < k ensures s[j] != PIPE {
      assert s[j] == field[j - |a|];
    }
    var i := FirstFrom(s, PIPE, |a|);
    assert i == k;
  }

  /** The pieces of `a + (field + rest)`, read back with `substr`. */
  lemma PiecesOf(a: Bytes, field: Bytes, rest: Bytes)
    ensures var s := a + (field + rest);
      && s[..|a|] == a
      && s[|a|..|a| + |field|] == field
      && s[|a| + |field|..] == rest
  {
    var s := a + (field + rest);
    assert s[|a|..] == field + rest;
  }

  /** Where `decode` finds the three delimiters of a joined record. */
  lemma JoinDelimiters(f: Fields)
    requires PIPE !in f.publicWord && PIPE !in f.epoch && PIPE !in f.ptype
    ensures var pos1 := |f.publicWord|;
      var pos2 := pos1 + 1 + |f.epoch|;
      var pos3 := pos2 + 1 + |f.ptype|;
      && pos3 < |Join(f)|
      && Find(Join(f), PIPE, 0) == Some(pos1)
      && Find(Join(f), PIPE, pos1 + 1) == Some(pos2)
      && Find(Join(f), PIPE, pos2 + 1) == Some(pos3)
  {
    FirstDelimiter(f);
    SecondDelimiter(f);
    ThirdDelimiter(f);
  }

  lemma FirstDelimiter(f: Fields)
    requires PIPE !in f.publicWord
    ensures Find(Join(f), PIPE, 0) == Some(|f.publicWord|)
  {
    assert Join(f) == [] + Join(f);
    FindAfterField([], f.publicWord, f.epoch + ([PIPE] + (f.ptype + ([PIPE] + f.content))));
  }

  lemma SecondDelimiter(f: Fields)
    requires PIPE !in f.epoch
    ensures Find(Join(f), PIPE, |f.publicWord| + 1) == Some(|f.publicWord| + 1 + |f.epoch|)
  {
    var a1 := f.publicWord + [PIPE];
    assert Join(f) == a1 + (f.epoch + ([PIPE] + (f.ptype + ([PIPE] + f.content))));
    FindAfterField(a1, f.epoch, f.ptype + ([PIPE] + f.content));
  }

  lemma ThirdDelimiter(f: Fields)
    requires PIPE !in f.ptype
    ensures var pos2 := |f.publicWord| + 1 + |f.epoch|;
      Find(Join(f), PIPE, pos2 + 1) == Some(pos2 + 1 + |f.ptype|)
  {
    var a2 := f.publicWord + [PIPE] + f.epoch + [PIPE];
    assert Join(f) == a2 + (f.ptype + ([PIPE] + f.content));
    FindAfterField(a2, f.ptype, f.content);
  }

  /** What lies between the delimiters of a joined record. */
  lemma JoinPieces(f: Fields)
    ensures var s := Join(f);
      var pos1 := |f.publicWord|;
      var pos2 := pos1 + 1 + |f.epoch|;
      var pos3 := pos2 + 1 + |f.ptype|;
      && pos3 < |s|
      && s[..pos1] == f.publicWord
      && s[pos1 + 1..pos2] == f.epoch
      && s[pos2 + 1..pos3] == f.ptype
      && s[pos3 + 1..] == f.content
  {
    FirstPiece(f);
    SecondPiece(f);
    ThirdPiece(f);
    LastPiece(f);
  }

  lemma FirstPiece(f: Fields)
    ensures Join(f)[..|f.publicWord|] == f.publicWord
  {
    var rest := [PIPE] + (f.epoch + ([PIPE] + (f.ptype + ([PIPE] + f.content))));
    assert Join(f) == [] + (f.publicWord + rest);
    PiecesOf([], f.publicWord, rest);
  }

  lemma SecondPiece(f: Fields)
    ensures var pos1 := |f.publicWord|;
      Join(f)[pos1 + 1..pos1 + 1 + |f.epoch|] == f.epoch
  {
    var a1 := f.publicWord + [PIPE];
    var rest := [PIPE] + (f.ptype + ([PIPE] + f.content));
    assert Join(f) == a1 + (f.epoch + rest);
    PiecesOf(a1, f.epoch, rest);
  }

  lemma ThirdPiece(f: Fields)
    ensures var pos2 := |f.publicWord| + 1 + |f.epoch|;
      Join(f)[pos2 + 1..pos2 + 1 + |f.ptype|] == f.ptype
  {
    var a2 := f.publicWord + [PIPE] + f.epoch + [PIPE];
    assert Join(f) == a2 + (f.ptype + ([PIPE] + f.content));
    PiecesOf(a2, f.ptype, [PIPE] + f.content);
  }

  lemma LastPiece(f: Fields)
    ensures var pos3 := |f.publicWord| + 1 + |f.epoch| + 1 + |f.ptype|;
      pos3 < |Join(f)| && Join(f)[pos3 + 1..] == f.content
  {
    var a3 := f.publicWord + [PIPE] + f.epoch + [PIPE] + f.ptype + [PIPE];
    assert Join(f) == a3 + (f.content + []);
    PiecesOf(a3, f.content, []);
  }

  /** A text with its delimiters where `f`'s lengths put them, and `f`'s
      fields between them, splits into `f`. */
  lemma SplitLaidOut(s: Bytes, f: Fields)
    requires var pos1 := |f.publicWord|;
      var pos2 := pos1 + 1 + |f.epoch|;
      var pos3 := pos2 + 1 + |f.ptype|;
      && pos3 < |s|
      && Find(s, PIPE, 0) == Some(pos1)
      && Find(s, PIPE, pos1 + 1) == Some(pos2)
      && Find(s, PIPE, pos2 + 1) == Some(pos3)
      && s[..pos1] == f.publicWord
      && s[pos1 + 1..pos2] == f.epoch
      && s[pos2 + 1..pos3] == f.ptype
      && s[pos3 + 1..] == f.content
    ensures SplitRecord(s) == Some(f)
  {
    var pos1 := |f.publicWord|;
    var pos2 := pos1 + 1 + |f.epoch|;
    var pos3 := pos2 + 1 + |f.ptype|;
    SplitAtDelimiters(s, pos1, pos2, pos3);
  }

  /** Splitting a joined record whose first three fields hold no '|' gives
      the fields back; the content may hold '|'. */
  lemma SplitJoin(f: Fields)
    requires PIPE !in f.publicWord && PIPE !in f.epoch && PIPE !in f.ptype
    ensures SplitRecord(Join(f)) == Some(f)
  {
    JoinDelimiters(f);
    JoinPieces(f);
    SplitLaidOut(Join(f), f);
  }
}
