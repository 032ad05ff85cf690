/** Healing a whole document (`heal_content`, src/heal.rs): edits collected in any order, sorted, and
    spliced back to front. The parser's answer is the document cut into text and link destinations. */
module HealContent {
  import opened Wrappers
  import opened Text
  import opened PercentCoding
  import opened Paths
  import opened Heal

  datatype Piece = Plain(text: string) | Dest(text: string)

  type Range = (nat, nat)

  datatype Edit = Edit(start: nat, end: nat, text: string)

  function Flatten(pieces: seq<Piece>): string {
    if pieces == [] then "" else pieces[0].text + Flatten(pieces[1..])
  }

  /** Where the destinations lie. */
  function Ranges(pieces: seq<Piece>, at: nat): seq<Range> {
    if pieces == [] then []
    else (if pieces[0].Dest? then [(at, at + |pieces[0].text|)] else []) + Ranges(pieces[1..], at + |pieces[0].text|)
  }

  function HealedPiece(p: Piece, dir: string, renames: seq<Rename>): Piece {
    if p.Dest? && HealedDest(p.text, dir, renames).Some? then Dest(HealedDest(p.text, dir, renames).value) else p
  }

  function HealedPieces(pieces: seq<Piece>, dir: string, renames: seq<Rename>): (r: seq<Piece>)
    ensures |r| == |pieces| && forall i :: 0 <= i < |r| ==> r[i] == HealedPiece(pieces[i], dir, renames)
  {
    if pieces == [] then [] else [HealedPiece(pieces[0], dir, renames)] + HealedPieces(pieces[1..], dir, renames)
  }

  /** How many destinations are rewritten. */
  function HealCount(pieces: seq<Piece>, dir: string, renames: seq<Rename>): nat {
    if pieces == [] then 0
    else |PieceEdit(pieces[0], 0, dir, renames)| + HealCount(pieces[1..], dir, renames)
  }

  /** The edits of the pieces, in document order. */
  function EditsOf(pieces: seq<Piece>, at: nat, dir: string, renames: seq<Rename>): seq<Edit> {
    if pieces == [] then []
    else PieceEdit(pieces[0], at, dir, renames) + EditsOf(pieces[1..], at + |pieces[0].text|, dir, renames)
  }

  function PieceEdit(p: Piece, at: nat, dir: string, renames: seq<Rename>): seq<Edit> {
    if p.Dest? && HealedDest(p.text, dir, renames).Some?
    then [Edit(at, at + |p.text|, HealedDest(p.text, dir, renames).value)] else []
  }

  // ----- the edits as collected -----

  predicate InText(r: Range, content: string) {
    r.0 <= r.1 <= |content|
  }

  function RangeEdit(content: string, r: Range, dir: string, renames: seq<Rename>): seq<Edit>
    requires InText(r, content)
  {
    match HealedDest(content[r.0..r.1], dir, renames)
    case Some(text) => [Edit(r.0, r.1, text)]
    case None => []
  }

  function EditsFor(content: string, ranges: seq<Range>, dir: string, renames: seq<Rename>): seq<Edit>
    requires forall r <- ranges :: InText(r, content)
  {
    if ranges == [] then []
    else
      EditsFor(content, ranges[..|ranges| - 1], dir, renames)
      + RangeEdit(content, ranges[|ranges| - 1], dir, renames)
  }

  lemma {:induction false} EditsForConcat(content: string, a: seq<Range>, b: seq<Range>, dir: string,
                                          renames: seq<Rename>)
    requires forall r <- a + b :: InText(r, content)
    ensures (forall r <- a :: InText(r, content)) && forall r <- b :: InText(r, content)
    ensures EditsFor(content, a + b, dir, renames)
      == EditsFor(content, a, dir, renames) + EditsFor(content, b, dir, renames)
  {
    hide RangeEdit;
    assert forall r <- a :: r in a + b;
    assert forall r <- b :: r in a + b;
    if b == [] {
      assert a + b == a;
    } else {
      var init := b[..|b| - 1];
      assert (a + b)[..|a + b| - 1] == a + init && (a + b)[|a + b| - 1] == b[|b| - 1];
      assert forall r <- a + init :: r in a + b;
      EditsForConcat(content, a, init, dir, renames);
    }
  }

  function Without<T>(s: seq<T>, j: nat): seq<T>
    requires j < |s|
  {
    s[..j] + s[j + 1..]
  }

  /** Two arrangements of one multiset: the first element of one can be taken out of the other. */
  lemma TakeOut<T>(a: seq<T>, b: seq<T>) returns (j: nat)
    requires a != [] && multiset(a) == multiset(b)
    ensures j < |b| && b[j] == a[0] && multiset(a[1..]) == multiset(Without(b, j))
  {
    assert a[0] in multiset(b);
    j :| j < |b| && b[j] == a[0];
    MultisetWithout(a, 0);
    MultisetWithout(b, j);
    assert Without(a, 0) == a[1..];
  }

  lemma MultisetWithout<T>(s: seq<T>, j: nat)
    requires j < |s|
    ensures multiset(Without(s, j)) == multiset(s) - multiset{s[j]}
  {
    assert s == (s[..j] + [s[j]]) + s[j + 1..];
    assert multiset(s) == multiset(s[..j]) + multiset{s[j]} + multiset(s[j + 1..]);
  }

  lemma EditsWithout(content: string, b: seq<Range>, j: nat, dir: string, renames: seq<Rename>)
    requires j < |b| && forall r <- b :: InText(r, content)
    ensures forall r <- Without(b, j) :: InText(r, content)
    ensures multiset(EditsFor(content, b, dir, renames))
      == multiset(RangeEdit(content, b[j], dir, renames)) + multiset(EditsFor(content, Without(b, j), dir, renames))
  {
    hide RangeEdit, InText, EditsFor;
    var x, l, r := b[j], b[..j], b[j + 1..];
    assert b == (l + [x]) + r;
    assert forall y <- l + r :: y in b;
    assert forall y <- l + [x] :: y in b;
    EditsForConcat(content, l + [x], r, dir, renames);
    EditsForConcat(content, l, [x], dir, renames);
    EditsForConcat(content, l, r, dir, renames);
    assert x in b;
    OneRange(content, x, dir, renames);
    MiddleOut(EditsFor(content, l, dir, renames), RangeEdit(content, x, dir, renames),
              EditsFor(content, r, dir, renames));
  }

  lemma MiddleOut<T>(a: seq<T>, b: seq<T>, c: seq<T>)
    ensures multiset((a + b) + c) == multiset(b) + multiset(a + c)
  {
  }

  /** The collected edits are the same multiset in whatever order the destinations were met. */
  lemma {:induction false} EditsAnyOrder(content: string, a: seq<Range>, b: seq<Range>, dir: string,
                                         renames: seq<Rename>)
    requires multiset(a) == multiset(b) && (forall r <- a :: InText(r, content)) && forall r <- b :: InText(r, content)
    ensures multiset(EditsFor(content, a, dir, renames)) == multiset(EditsFor(content, b, dir, renames))
    decreases |a|
  {
    hide RangeEdit, InText, EditsFor;
    assert |multiset(a)| == |a| && |multiset(b)| == |b|;
    if a == [] {
      assert a == b;
    } else {
      var j := TakeOut(a, b);
      EditsWithout(content, b, j, dir, renames);
      EditsWithout(content, a, 0, dir, renames);
      assert Without(a, 0) == a[1..];
      EditsAnyOrder(content, a[1..], Without(b, j), dir, renames);
    }
  }

  lemma {:induction false} EditsForPieces(content: string, pre: string, pieces: seq<Piece>, dir: string,
                                          renames: seq<Rename>)
    requires content == pre + Flatten(pieces)
    ensures forall r <- Ranges(pieces, |pre|) :: InText(r, content)
    ensures EditsFor(content, Ranges(pieces, |pre|), dir, renames) == EditsOf(pieces, |pre|, dir, renames)
    decreases |pieces|
  {
    hide HealedDest, EditsFor;
    NoRanges(content, dir, renames);
    if pieces != [] {
      var p := pieces[0];
      Text.Regroup(pre, p.text, Flatten(pieces[1..]));
      EditsForPieces(content, pre + p.text, pieces[1..], dir, renames);
      FirstPieceEdits(content, pre, p, Flatten(pieces[1..]), Ranges(pieces[1..], |pre + p.text|), dir, renames);
    }
  }

  lemma FirstPieceEdits(content: string, pre: string, p: Piece, after: string, rest: seq<Range>, dir: string,
                        renames: seq<Rename>)
    requires content == pre + p.text + after && forall r <- rest :: InText(r, content)
    ensures var r := (|pre|, |pre| + |p.text|);
      var ranges := (if p.Dest? then [r] else []) + rest;
      (forall x <- ranges :: InText(x, content))
      && EditsFor(content, ranges, dir, renames)
        == PieceEdit(p, |pre|, dir, renames) + EditsFor(content, rest, dir, renames)
  {
    hide HealedDest, EditsFor;
    if p.Dest? {
      var r := (|pre|, |pre| + |p.text|);
      assert content[r.0..r.1] == p.text;
      EditsForConcat(content, [r], rest, dir, renames);
      OneRange(content, r, dir, renames);
    } else {
      assert [] + rest == rest;
    }
  }

  lemma NoRanges(content: string, dir: string, renames: seq<Rename>)
    ensures EditsFor(content, [], dir, renames) == []
  {
  }

  lemma OneRange(content: string, r: Range, dir: string, renames: seq<Rename>)
    requires InText(r, content)
    ensures EditsFor(content, [r], dir, renames) == RangeEdit(content, r, dir, renames)
  {
    hide RangeEdit;
    assert [r][..0] == [];
  }

  // ----- sorting -----

  function Insert(e: Edit, s: seq<Edit>): seq<Edit> {
    if s == [] || e.start <= s[0].start then [e] + s else [s[0]] + Insert(e, s[1..])
  }

  function SortByStart(s: seq<Edit>): seq<Edit> {
    if s == [] then [] else Insert(s[0], SortByStart(s[1..]))
  }

  predicate Sorted(s: seq<Edit>) {
    forall i, j :: 0 <= i < j < |s| ==> s[i].start <= s[j].start
  }

  predicate StrictlySorted(s: seq<Edit>) {
    forall i, j :: 0 <= i < j < |s| ==> s[i].start < s[j].start
  }

  lemma {:induction false} InsertSorts(e: Edit, s: seq<Edit>)
    requires Sorted(s)
    ensures Sorted(Insert(e, s)) && multiset(Insert(e, s)) == multiset(s) + multiset{e}
  {
    InsertKeeps(e, s);
    if s != [] && e.start > s[0].start {
      hide Insert;
      InsertSorts(e, s[1..]);
      var t := Insert(e, s[1..]);
      InsertKeeps(e, s[1..]);
      assert Insert(e, s) == [s[0]] + t by { InsertAfter(e, s); }
      forall x | x in t
        ensures s[0].start <= x.start
      {
        assert x in multiset(t);
        assert x == e || x in s[1..];
      }
    }
  }

  lemma InsertAfter(e: Edit, s: seq<Edit>)
    requires s != [] && e.start > s[0].start
    ensures Insert(e, s) == [s[0]] + Insert(e, s[1..])
  {
  }

  lemma {:induction false} InsertKeeps(e: Edit, s: seq<Edit>)
    ensures multiset(Insert(e, s)) == multiset(s) + multiset{e}
  {
    if s != [] && e.start > s[0].start {
      InsertKeeps(e, s[1..]);
      assert s == [s[0]] + s[1..];
    }
  }

  lemma {:induction false} SortSorts(s: seq<Edit>)
    ensures Sorted(SortByStart(s)) && multiset(SortByStart(s)) == multiset(s)
  {
    if s != [] {
      SortSorts(s[1..]);
      InsertSorts(s[0], SortByStart(s[1..]));
      assert s == [s[0]] + s[1..];
    }
  }

  lemma {:induction false} SortedUnique(a: seq<Edit>, b: seq<Edit>)
    requires StrictlySorted(a) && Sorted(b) && multiset(a) == multiset(b)
    ensures a == b
    decreases |a|
  {
    SameLength(a, b);
    if a != [] {
      SameFirst(a, b);
      SortedTails(a, b);
      hide Sorted, StrictlySorted;
      TailMultisets(a, b);
      SortedUnique(a[1..], b[1..]);
      assert a == [a[0]] + a[1..] && b == [b[0]] + b[1..];
    }
  }

  lemma SameLength<T>(a: seq<T>, b: seq<T>)
    requires multiset(a) == multiset(b)
    ensures |a| == |b|
  {
    assert |multiset(a)| == |a| && |multiset(b)| == |b|;
  }

  lemma TailMultisets<T>(a: seq<T>, b: seq<T>)
    requires a != [] && b != [] && a[0] == b[0] && multiset(a) == multiset(b)
    ensures multiset(a[1..]) == multiset(b[1..])
  {
    MultisetWithout(a, 0);
    MultisetWithout(b, 0);
    assert Without(a, 0) == a[1..] && Without(b, 0) == b[1..];
  }

  lemma SameFirst(a: seq<Edit>, b: seq<Edit>)
    requires a != [] && b != [] && StrictlySorted(a) && Sorted(b) && multiset(a) == multiset(b)
    ensures a[0] == b[0]
  {
    var j := TakeOut(a, b);
    var i := TakeOut(b, a);
    assert b[0].start <= b[j].start == a[0].start;
    assert a[i].start == b[0].start;
  }

  lemma SortedTails(a: seq<Edit>, b: seq<Edit>)
    requires a != [] && b != [] && StrictlySorted(a) && Sorted(b)
    ensures StrictlySorted(a[1..]) && Sorted(b[1..])
  {
  }

  // ----- splicing -----

  /** Edits in order, apart, inside the text from `from` on. */
  predicate Apart(edits: seq<Edit>, from: nat, n: nat) {
    if edits == [] then from <= n
    else from <= edits[0].start <= edits[0].end && Apart(edits[1..], edits[0].end, n)
  }

  /** All edits at once: the text from `from` on with every range replaced. */
  function Replaced(content: string, from: nat, edits: seq<Edit>): string
    requires Apart(edits, from, |content|)
    decreases |edits|
  {
    if edits == [] then content[from..]
    else
      ApartBounds(edits[1..], edits[0].end, |content|);
      content[from..edits[0].start] + edits[0].text + Replaced(content, edits[0].end, edits[1..])
  }

  lemma {:induction false} ApartBounds(edits: seq<Edit>, from: nat, n: nat)
    requires Apart(edits, from, n)
    ensures from <= n
  {
    if edits != [] {
      ApartBounds(edits[1..], edits[0].end, n);
    }
  }

  lemma ApartFrom(edits: seq<Edit>, from: nat, later: nat, n: nat)
    requires Apart(edits, from, n) && from <= later && later <= (if edits == [] then n else edits[0].start)
    ensures Apart(edits, later, n)
  {
  }

  /** Up to the first edit the text is the old text. */
  lemma ReplacedFrom(content: string, from: nat, later: nat, edits: seq<Edit>)
    requires Apart(edits, from, |content|) && from <= later
    requires later <= (if edits == [] then |content| else edits[0].start)
    ensures Apart(edits, later, |content|) && later <= |content|
    ensures Replaced(content, from, edits) == content[from..later] + Replaced(content, later, edits)
  {
    ApartFrom(edits, from, later, |content|);
    ApartBounds(edits, later, |content|);
    if edits == [] {
      assert content[from..] == content[from..later] + content[later..];
    } else {
      ApartBounds(edits[1..], edits[0].end, |content|);
      assert content[from..edits[0].start] == content[from..later] + content[later..edits[0].start];
    }
  }

  lemma {:induction false} ApartSuffix(edits: seq<Edit>, from: nat, k: nat, n: nat)
    requires Apart(edits, from, n) && k <= |edits|
    ensures k < |edits| ==> from <= edits[k].start <= edits[k].end && Apart(edits[k + 1..], edits[k].end, n)
    ensures Apart(edits[k..], from, n)
    decreases k
  {
    ApartBounds(edits, from, n);
    if k == 0 {
      assert edits[0..] == edits;
    } else {
      ApartSuffix(edits[1..], edits[0].end, k - 1, n);
      assert edits[1..][k - 1..] == edits[k..];
      if k < |edits| {
        assert edits[1..][k - 1] == edits[k] && edits[1..][k..] == edits[k + 1..];
        assert edits[k..][1..] == edits[k + 1..];
      } else {
        assert edits[k..] == [];
        ApartBounds(edits[1..], edits[0].end, n);
      }
    }
  }

  /** One step of the back-to-front loop, `replace_range`: the edits behind it do not move its range. */
  lemma SpliceStep(content: string, edits: seq<Edit>, k: nat)
    requires Apart(edits, 0, |content|) && k < |edits|
    ensures Apart(edits[k + 1..], 0, |content|) && Apart(edits[k..], 0, |content|)
    ensures var e, text := edits[k], Replaced(content, 0, edits[k + 1..]);
      e.start <= e.end <= |text| && Replaced(content, 0, edits[k..]) == text[..e.start] + e.text + text[e.end..]
  {
    hide Replaced;
    ApartSuffix(edits, 0, k, |content|);
    ApartSuffix(edits, 0, k + 1, |content|);
    var e, rest := edits[k], edits[k + 1..];
    ApartBounds(rest, e.end, |content|);
    assert edits[k..][1..] == rest;
    assert rest != [] ==> e.end <= rest[0].start;
    ReplacedFrom(content, 0, e.end, rest);
    var tail := Replaced(content, e.end, rest);
    var text := Replaced(content, 0, rest);
    assert text == content[0..e.end] + tail;
    assert text[..e.start] == content[0..e.start] && text[e.end..] == tail;
    ReplacedFirst(content, edits[k..]);
  }

  lemma ReplacedFirst(content: string, edits: seq<Edit>)
    requires edits != [] && Apart(edits, 0, |content|)
    ensures edits[0].start <= edits[0].end <= |content|
    ensures Apart(edits[1..], edits[0].end, |content|)
    ensures Replaced(content, 0, edits)
      == content[0..edits[0].start] + edits[0].text + Replaced(content, edits[0].end, edits[1..])
  {
    ApartBounds(edits[1..], edits[0].end, |content|);
  }

  // ----- the pieces' edits are apart, in order, and mean the healed pieces -----

  lemma HealedIsLong(dest: string, dir: string, renames: seq<Rename>)
    ensures HealedDest(dest, dir, renames).Some? ==> dest != ""
  {
    if dest == "" {
      assert PathPart("") == "";
      Empty();
    }
  }

  lemma Empty()
    ensures Decoded("") == ""
  {
  }

  lemma {:induction false} PiecesApart(pieces: seq<Piece>, at: nat, dir: string, renames: seq<Rename>)
    ensures Apart(EditsOf(pieces, at, dir, renames), at, at + |Flatten(pieces)|)
    ensures StrictlySorted(EditsOf(pieces, at, dir, renames))
    ensures forall e <- EditsOf(pieces, at, dir, renames) :: e.start >= at
  {
    hide HealedDest, Apart, StrictlySorted;
    if pieces == [] {
      NothingApart(at);
    } else {
      var p := pieces[0];
      var rest := EditsOf(pieces[1..], at + |p.text|, dir, renames);
      PiecesApart(pieces[1..], at + |p.text|, dir, renames);
      var first := PieceEdit(p, at, dir, renames);
      OnePieceEdit(p, at, dir, renames);
      hide PieceEdit;
      assert at + |Flatten(pieces)| == at + |p.text| + |Flatten(pieces[1..])|;
      PrependEdit(first, rest, at, at + |p.text|, at + |Flatten(pieces)|);
      assert EditsOf(pieces, at, dir, renames) == first + rest;
      hide EditsOf;
      forall e: Edit | e in first + rest
        ensures e.start >= at
      {
      }
    }
  }

  lemma OnePieceEdit(p: Piece, at: nat, dir: string, renames: seq<Rename>)
    ensures var first := PieceEdit(p, at, dir, renames);
      first == [] || (|first| == 1 && first[0].start == at && first[0].end == at + |p.text| && at < at + |p.text|)
    ensures HealedPiece(p, dir, renames).text
      == if PieceEdit(p, at, dir, renames) == [] then p.text else PieceEdit(p, at, dir, renames)[0].text
  {
    HealedIsLong(p.text, dir, renames);
  }

  lemma NothingApart(at: nat)
    ensures Apart([], at, at) && StrictlySorted([])
  {
  }

  lemma PrependEdit(first: seq<Edit>, rest: seq<Edit>, at: nat, next: nat, n: nat)
    requires Apart(rest, next, n) && StrictlySorted(rest) && (forall e <- rest :: e.start >= next) && at <= next
    requires first == [] || (|first| == 1 && first[0].start == at && first[0].end == next && at < next)
    ensures Apart(first + rest, at, n) && StrictlySorted(first + rest)
  {
    if first == [] {
      assert first + rest == rest;
      ApartEarlier(rest, at, next, n);
    } else {
      assert (first + rest)[1..] == rest;
    }
  }

  lemma ApartEarlier(edits: seq<Edit>, earlier: nat, from: nat, n: nat)
    requires Apart(edits, from, n) && earlier <= from
    ensures Apart(edits, earlier, n)
  {
  }

  lemma {:induction false} PiecesReplaced(content: string, pre: string, pieces: seq<Piece>, dir: string,
                                          renames: seq<Rename>)
    requires content == pre + Flatten(pieces)
    ensures Apart(EditsOf(pieces, |pre|, dir, renames), |pre|, |content|)
    ensures Replaced(content, |pre|, EditsOf(pieces, |pre|, dir, renames))
      == Flatten(HealedPieces(pieces, dir, renames))
    decreases |pieces|
  {
    hide HealedDest, Apart, Replaced, PieceEdit;
    PiecesApart(pieces, |pre|, dir, renames);
    if pieces == [] {
      NothingReplaced(content, |pre|);
    } else {
      var p := pieces[0];
      var pre1 := pre + p.text;
      assert content == pre1 + Flatten(pieces[1..]);
      PiecesReplaced(content, pre1, pieces[1..], dir, renames);
      PiecesApart(pieces[1..], |pre1|, dir, renames);
      assert content[|pre|..|pre1|] == p.text;
      PieceReplaced(content, |pre|, p, EditsOf(pieces[1..], |pre1|, dir, renames), dir, renames);
      assert HealedPieces(pieces, dir, renames)[1..] == HealedPieces(pieces[1..], dir, renames);
    }
  }

  lemma NothingReplaced(content: string, at: nat)
    requires at == |content|
    ensures Apart([], at, |content|) && Replaced(content, at, []) == ""
  {
  }

  lemma PieceReplaced(content: string, at: nat, p: Piece, rest: seq<Edit>, dir: string, renames: seq<Rename>)
    requires at + |p.text| <= |content| && content[at..at + |p.text|] == p.text
    requires Apart(rest, at + |p.text|, |content|)
    ensures var edits := PieceEdit(p, at, dir, renames) + rest;
      Apart(edits, at, |content|)
      && Replaced(content, at, edits) == HealedPiece(p, dir, renames).text + Replaced(content, at + |p.text|, rest)
  {
    hide HealedPiece, PieceEdit, Replaced, Apart;
    var next, first := at + |p.text|, PieceEdit(p, at, dir, renames);
    OnePieceEdit(p, at, dir, renames);
    if first == [] {
      assert first + rest == rest;
      NoEditFirst(content, at, next, rest);
    } else {
      assert first == [first[0]];
      EditFirst(content, first[0], rest);
    }
  }

  lemma NoEditFirst(content: string, at: nat, next: nat, rest: seq<Edit>)
    requires at <= next && Apart(rest, next, |content|)
    ensures Apart(rest, at, |content|) && next <= |content|
    ensures Replaced(content, at, rest) == content[at..next] + Replaced(content, next, rest)
  {
    ApartEarlier(rest, at, next, |content|);
    ReplacedFrom(content, at, next, rest);
  }

  lemma EditFirst(content: string, e: Edit, rest: seq<Edit>)
    requires e.start <= e.end && Apart(rest, e.end, |content|)
    ensures Apart([e] + rest, e.start, |content|)
    ensures Replaced(content, e.start, [e] + rest) == e.text + Replaced(content, e.end, rest)
  {
    assert ([e] + rest)[1..] == rest;
    ApartBounds(rest, e.end, |content|);
    assert content[e.start..e.start] == "";
  }

  lemma CountIsEdits(pieces: seq<Piece>, at: nat, dir: string, renames: seq<Rename>)
    ensures |EditsOf(pieces, at, dir, renames)| == HealCount(pieces, dir, renames)
  {
  }

  // ----- the program -----

  /** One destination, resolved step for step as the extractor does. */
  method HealDestination(dest: string, dir: string, renames: seq<Rename>) returns (r: Option<string>)
    ensures r == HealedDest(dest, dir, renames)
  {
    if IsExternal(dest) {
      return None;
    }
    var target := PercentDecode(PathPart(dest));
    if target == "" {
      return None;
    }
    var resolved := NormalizeWikilinkPath(target, dir);
    if resolved.None? {
      return None;
    }
    assert renames[0..] == renames;
    for i := 0 to |renames|
      invariant NewPath(renames[i..], resolved.value) == NewPath(renames, resolved.value)
    {
      assert renames[i..][1..] == renames[i + 1..];
      if renames[i].0 == resolved.value {
        return Some(Canonical(renames[i].1, dest));
      }
    }
    return None;
  }

  /** `heal_content`: in whatever order the destinations are met, the result is the document with each
      destination healed in its place, every other character as it was, and the count of rewritten links. */
  method HealText(content: string, dests: seq<Range>, relpath: string, renames: seq<Rename>, ghost pieces: seq<Piece>)
    returns (healed: string, count: nat)
    requires content == Flatten(pieces) && multiset(dests) == multiset(Ranges(pieces, 0))
    ensures healed == Flatten(HealedPieces(pieces, DocDir(relpath), renames))
    ensures count == HealCount(pieces, DocDir(relpath), renames)
  {
    var dir := DocDir(relpath);
    DestsInText(content, dests, pieces, dir, renames);
    var edits: seq<Edit> := [];
    for i := 0 to |dests|
      invariant forall r <- dests[..i] :: InText(r, content)
      invariant edits == EditsFor(content, dests[..i], dir, renames)
    {
      assert dests[..i + 1][..i] == dests[..i];
      assert dests[i] in dests;
      var text := HealDestination(content[dests[i].0..dests[i].1], dir, renames);
      match text {
        case Some(t) => edits := edits + [Edit(dests[i].0, dests[i].1, t)];
        case None => assert edits + [] == edits;
      }
    }
    assert dests[..|dests|] == dests;
    healed, count := content, |edits|;
    edits := SortByStart(edits);
    SortedEdits(content, dests, pieces, dir, renames);
    NoEdits(content);
    var k := |edits|;
    assert edits[k..] == [];
    while k > 0
      invariant 0 <= k <= |edits|
      invariant Apart(edits[k..], 0, |content|) && healed == Replaced(content, 0, edits[k..])
    {
      SpliceStep(content, edits, k - 1);
      k := k - 1;
      healed := healed[..edits[k].start] + edits[k].text + healed[edits[k].end..];
    }
    assert edits[0..] == edits;
  }

  lemma NoEdits(content: string)
    ensures Apart([], 0, |content|) && Replaced(content, 0, []) == content
  {
  }

  lemma DestsInText(content: string, dests: seq<Range>, pieces: seq<Piece>, dir: string, renames: seq<Rename>)
    requires content == Flatten(pieces) && multiset(dests) == multiset(Ranges(pieces, 0))
    ensures forall r <- dests :: InText(r, content)
  {
    hide InText;
    assert content == "" + Flatten(pieces);
    EditsForPieces(content, "", pieces, dir, renames);
    forall r | r in dests
      ensures InText(r, content)
    {
      assert r in multiset(dests);
    }
  }

  lemma SortedEdits(content: string, dests: seq<Range>, pieces: seq<Piece>, dir: string, renames: seq<Rename>)
    requires content == Flatten(pieces) && multiset(dests) == multiset(Ranges(pieces, 0))
    requires forall r <- dests :: InText(r, content)
    ensures var edits := SortByStart(EditsFor(content, dests, dir, renames));
      Apart(edits, 0, |content|) && Replaced(content, 0, edits) == Flatten(HealedPieces(pieces, dir, renames))
    ensures |EditsFor(content, dests, dir, renames)| == HealCount(pieces, dir, renames)
  {
    hide HealedDest, InText, Sorted, StrictlySorted, Flatten, Ranges, EditsOf, EditsFor, SortByStart, Replaced, Apart;
    assert content == "" + Flatten(pieces);
    EditsForPieces(content, "", pieces, dir, renames);
    assert forall r <- Ranges(pieces, |""|) :: InText(r, content);
    EditsAnyOrder(content, dests, Ranges(pieces, 0), dir, renames);
    var found, inOrder := EditsFor(content, dests, dir, renames), EditsOf(pieces, 0, dir, renames);
    SortSorts(found);
    PiecesApart(pieces, 0, dir, renames);
    SortedUnique(inOrder, SortByStart(found));
    PiecesReplaced(content, "", pieces, dir, renames);
    CountIsEdits(pieces, 0, dir, renames);
    assert |found| == |multiset(found)| == |multiset(inOrder)| == |inOrder|;
  }
}
