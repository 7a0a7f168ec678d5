// The tag-list grammar of operator records (`parse_tags` in src/record.rs).
module Tags {
  import opened Common
  import opened AssocLists
  import opened Text

  const VERSION: string := "SWORN1"

  datatype RecordError = NotSworn | MalformedTag | DuplicateTag | BadValue(tag: string)

  type TagList = seq<(string, string)>

  // Printable US-ASCII, and HTAB.
  predicate Permitted(c: char) {
    c == '\t' || ' ' <= c <= '~'
  }

  predicate IsBlank(c: char) {
    c == ' ' || c == '\t'
  }

  predicate AllPermitted(s: string) {
    forall i :: 0 <= i < |s| ==> Permitted(s[i])
  }

  predicate HasBlank(s: string) {
    exists i :: 0 <= i < |s| && IsBlank(s[i])
  }

  // What one segment between semicolons says.
  datatype Segment = Skip | Bad | Pair(name: string, value: string)

  function ReadSegment(raw: string): Segment {
    var segment := Trim(raw);
    if segment == "" then Skip
    else
      match SplitOnce(segment, '=')
      case None => Bad
      case Some((left, right)) =>
        var name, value := Trim(left), Trim(right);
        if name == "" || HasBlank(value) then Bad else Pair(name, value)
  }

  // Reads the segments after `tags`; the first fault decides the error.
  function Collect(segments: seq<string>, tags: TagList): Result<TagList, RecordError> {
    if segments == [] then Ok(tags)
    else
      match ReadSegment(segments[0])
      case Skip => Collect(segments[1..], tags)
      case Bad => Err(MalformedTag)
      case Pair(name, value) =>
        if HasKey(tags, name) then Err(DuplicateTag)
        else Collect(segments[1..], tags + [(name, value)])
  }

  function TagsOf(txt: string): Result<TagList, RecordError> {
    if !AllPermitted(txt) then Err(MalformedTag)
    else
      var tags :- Collect(Split(txt, ';'), []);
      if |tags| > 0 && tags[0] == ("v", VERSION) then Ok(tags) else Err(NotSworn)
  }

  method ParseTags(txt: string) returns (r: Result<TagList, RecordError>)
    ensures r == TagsOf(txt)
  {
    if exists i :: 0 <= i < |txt| && !Permitted(txt[i]) {
      return Err(MalformedTag);
    }
    var tags: TagList := [];
    var segments := Split(txt, ';');
    var i := 0;
    while i < |segments|
      invariant 0 <= i <= |segments|
      invariant Collect(segments, []) == Collect(segments[i..], tags)
    {
      var segment := Trim(segments[i]);
      i := i + 1;
      assert segments[i - 1..][1..] == segments[i..];
      if segment == "" {
        continue;
      }
      var halves := SplitOnce(segment, '=');
      if halves.None? {
        return Err(MalformedTag);
      }
      var name, value := Trim(halves.value.0), Trim(halves.value.1);
      if name == "" || HasBlank(value) {
        return Err(MalformedTag);
      }
      if HasKey(tags, name) {
        return Err(DuplicateTag);
      }
      tags := tags + [(name, value)];
    }
    if |tags| > 0 && tags[0] == ("v", VERSION) {
      r := Ok(tags);
    } else {
      r := Err(NotSworn);
    }
  }

  // ---- The grammar, written as a printer ----

  // A segment: blank, or a tag with any SP/HTAB padding around its name and its value.
  datatype Piece =
    | Blank(pad: string)
    | Tag(before: string, name: string, mid: string, gap: string, value: string, after: string)

  predicate IsPad(s: string) {
    forall i :: 0 <= i < |s| ==> IsBlank(s[i])
  }

  // Names may hold inner blanks but no `=`; values may hold `=` but no blanks.
  predicate IsName(s: string) {
    s != "" && !IsBlank(s[0]) && !IsBlank(s[|s| - 1]) && '=' !in s && ';' !in s && AllPermitted(s)
  }

  predicate IsValue(s: string) {
    !HasBlank(s) && ';' !in s && AllPermitted(s)
  }

  predicate WellFormed(p: Piece) {
    match p
    case Blank(pad) => IsPad(pad)
    case Tag(before, name, mid, gap, value, after) =>
      IsPad(before) && IsName(name) && IsPad(mid) && IsPad(gap) && IsValue(value) && IsPad(after)
  }

  function PieceText(p: Piece): string {
    match p
    case Blank(pad) => pad
    case Tag(before, name, mid, gap, value, after) => before + (name + mid + ['='] + (gap + value)) + after
  }

  predicate AllWellFormed(pieces: seq<Piece>) {
    forall i :: 0 <= i < |pieces| ==> WellFormed(pieces[i])
  }

  function Texts(pieces: seq<Piece>): (r: seq<string>)
    ensures |r| == |pieces|
  {
    seq(|pieces|, i requires 0 <= i < |pieces| => PieceText(pieces[i]))
  }

  function Print(pieces: seq<Piece>): string
    requires |pieces| >= 1
  {
    Join(Texts(pieces), ';')
  }

  function TagsIn(pieces: seq<Piece>): TagList {
    if pieces == [] then []
    else
      match pieces[0]
      case Blank(_) => TagsIn(pieces[1..])
      case Tag(_, name, _, _, value, _) => [(name, value)] + TagsIn(pieces[1..])
  }

  function SegmentOf(p: Piece): Segment {
    match p
    case Blank(_) => Skip
    case Tag(_, name, _, _, value, _) => Pair(name, value)
  }

  // ---- Reading a piece back ----

  // Past the octet gate, SP and HTAB are the only white space there is.
  lemma PermittedWhite(c: char)
    ensures IsBlank(c) ==> IsWhite(c) && Permitted(c)
    ensures Permitted(c) && IsWhite(c) ==> IsBlank(c)
  {
  }

  lemma PadIsWhite(s: string)
    ensures IsPad(s) <==> AllWhite(s) && AllPermitted(s)
    ensures IsPad(s) ==> '=' !in s && ';' !in s
  {
    forall i | 0 <= i < |s|
      ensures IsBlank(s[i]) <==> IsWhite(s[i]) && Permitted(s[i])
    {
      PermittedWhite(s[i]);
    }
  }

  lemma NameIsTrimmed(s: string)
    ensures IsName(s) <==> s != "" && Trimmed(s) && '=' !in s && ';' !in s && AllPermitted(s)
  {
    if s != "" {
      PermittedWhite(s[0]);
      PermittedWhite(s[|s| - 1]);
    }
  }

  lemma ValueIsTrimmed(s: string)
    requires IsValue(s)
    ensures Trimmed(s)
  {
    if s != "" {
      PermittedWhite(s[0]);
      PermittedWhite(s[|s| - 1]);
    }
  }

  lemma PieceReadsBack(p: Piece)
    requires WellFormed(p)
    ensures ReadSegment(PieceText(p)) == SegmentOf(p)
  {
    hide IsWhite, AllWhite, Trim, IsPad, IsName;
    EmptyIsWhite();
    match p {
      case Blank(pad) =>
        PadIsWhite(pad);
        TrimPadded(pad, "", "");
        assert pad + "" + "" == pad;
      case Tag(before, name, mid, gap, value, after) =>
        PadIsWhite(before);
        PadIsWhite(mid);
        PadIsWhite(gap);
        PadIsWhite(after);
        NameIsTrimmed(name);
        ValueIsTrimmed(value);
        TagReadsBack(before, name, mid, gap, value, after);
    }
  }

  // An empty value lets the trim run into the gap; the pieces are then regrouped.
  lemma TagReadsBack(before: string, name: string, mid: string, gap: string, value: string, after: string)
    requires AllWhite(before) && AllWhite(mid) && AllWhite(gap) && AllWhite(after)
    requires name != "" && Trimmed(name) && '=' !in name && Trimmed(value) && !HasBlank(value)
    requires '=' !in mid
    ensures ReadSegment(before + (name + mid + ['='] + (gap + value)) + after) == Pair(name, value)
  {
    hide IsWhite, AllWhite, Trim;
    var right := if value == "" then "" else gap + value;
    var rest := if value == "" then gap + after else after;
    var core := name + mid + ['='] + right;
    assert before + (name + mid + ['='] + (gap + value)) + after == before + core + rest;
    WhiteConcat(gap, after);
    TrimPadded(before, core, rest) by {
      assert core[0] == name[0];
      assert core[|core| - 1] == if value == "" then '=' else value[|value| - 1];
      EqualsIsNotWhite();
    }
    assert '=' !in name + mid;
    EmptyIsWhite();
    SplitOnceFirst(name + mid, right, '=');
    TrimPadded("", name, mid);
    assert "" + name + mid == name + mid;
    TrimPadded(if value == "" then "" else gap, value, "");
    assert (if value == "" then "" else gap) + value + "" == right;
  }

  lemma EqualsIsNotWhite()
    ensures !IsWhite('=')
  {
  }

  lemma EmptyIsWhite()
    ensures AllWhite("")
  {
  }

  lemma WhiteConcat(a: string, b: string)
    requires AllWhite(a) && AllWhite(b)
    ensures AllWhite(a + b)
  {
  }

  // ---- Reading any segment as a piece ----

  ghost function PieceOf(raw: string): Piece
    requires !ReadSegment(raw).Bad?
  {
    var segment := Trim(raw);
    if segment == "" then Blank(raw)
    else
      var (left, right) := SplitOnce(segment, '=').value;
      Tag(PadStart(raw), Trim(left), PadEnd(left), PadStart(right), Trim(right), PadEnd(raw))
  }

  predicate Clean(s: string) {
    AllPermitted(s) && ';' !in s
  }

  lemma CleanConcat(a: string, b: string)
    ensures Clean(a + b) <==> Clean(a) && Clean(b)
  {
    assert forall i :: 0 <= i < |a| ==> (a + b)[i] == a[i];
    assert forall i :: 0 <= i < |b| ==> (a + b)[|a| + i] == b[i];
  }

  lemma CleanConcat3(a: string, b: string, c: string)
    ensures Clean(a + b + c) <==> Clean(a) && Clean(b) && Clean(c)
  {
    CleanConcat(a + b, c);
    CleanConcat(a, b);
  }

  lemma NothingBefore(s: string)
    requires s != "" && !IsWhite(s[0])
    ensures PadStart(s) == "" && s == Trim(s) + PadEnd(s)
  {
    hide IsWhite;
    TrimDecomposes(s);
    assert "" + Trim(s) + PadEnd(s) == Trim(s) + PadEnd(s);
  }

  lemma NothingAfter(s: string)
    requires s == "" || !IsWhite(s[|s| - 1])
    ensures PadEnd(s) == "" && s == PadStart(s) + Trim(s)
  {
    hide IsWhite;
    TrimDecomposes(s);
    assert PadStart(s) + Trim(s) + "" == PadStart(s) + Trim(s);
  }

  lemma SegmentIsPiece(raw: string)
    requires Clean(raw) && !ReadSegment(raw).Bad?
    ensures var p := PieceOf(raw);
      WellFormed(p) && PieceText(p) == raw && SegmentOf(p) == ReadSegment(raw)
  {
    hide IsWhite, AllWhite, Trim, PadStart, PadEnd, IsPad;
    var segment := Trim(raw);
    TrimDecomposes(raw);
    CleanConcat3(PadStart(raw), segment, PadEnd(raw));
    if segment == "" {
      WhiteConcat(PadStart(raw), PadEnd(raw));
      assert PadStart(raw) + "" + PadEnd(raw) == PadStart(raw) + PadEnd(raw);
      PadIsWhite(raw);
    } else {
      var (left, right) := SplitOnce(segment, '=').value;
      assert segment == left + ['='] + right;
      CleanConcat3(left, ['='], right);
      TrimDecomposes(left);
      TrimDecomposes(right);
      CleanConcat3(PadStart(left), Trim(left), PadEnd(left));
      CleanConcat3(PadStart(right), Trim(right), PadEnd(right));
      HalvesArePieces(segment, left, right);
      PadIsWhite(PadStart(raw));
      PadIsWhite(PadEnd(raw));
      PadIsWhite(PadEnd(left));
      PadIsWhite(PadStart(right));
      NameIsTrimmed(Trim(left));
    }
  }

  // A trimmed segment has no padding before its name and none after its value.
  lemma HalvesArePieces(segment: string, left: string, right: string)
    requires segment != "" && Trimmed(segment) && segment == left + ['='] + right
    requires Trim(left) != ""
    ensures left == Trim(left) + PadEnd(left) && right == PadStart(right) + Trim(right)
    ensures '=' !in left ==> '=' !in Trim(left)
  {
    hide IsWhite, PadStart, PadEnd;
    TrimDecomposes(left);
    assert |Trim(left)| <= |left|;
    assert segment[0] == left[0];
    NothingBefore(left);
    if right != "" {
      assert segment[|segment| - 1] == right[|right| - 1];
    }
    NothingAfter(right);
  }

  // ---- Whole records ----

  ghost predicate IsPrintOf(txt: string, pieces: seq<Piece>) {
    |pieces| >= 1 && AllWellFormed(pieces) && txt == Print(pieces)
  }

  lemma PieceIsClean(p: Piece)
    requires WellFormed(p)
    ensures Clean(PieceText(p))
  {
    match p {
      case Blank(pad) =>
        PadIsWhite(pad);
      case Tag(before, name, mid, gap, value, after) =>
        PadIsWhite(before);
        PadIsWhite(mid);
        PadIsWhite(gap);
        PadIsWhite(after);
        CleanConcat(gap, value);
        CleanConcat3(name, mid, ['=']);
        CleanConcat(name + mid + ['='], gap + value);
        CleanConcat3(before, name + mid + ['='] + (gap + value), after);
    }
  }

  lemma PrintSplits(pieces: seq<Piece>)
    requires |pieces| >= 1 && AllWellFormed(pieces)
    ensures AllPermitted(Print(pieces)) && Split(Print(pieces), ';') == Texts(pieces)
  {
    hide WellFormed, PieceText;
    var parts := Texts(pieces);
    forall i | 0 <= i < |parts|
      ensures Clean(parts[i])
    {
      PieceIsClean(pieces[i]);
    }
    SplitJoin(parts, ';');
    JoinChars(parts, ';');
    forall i | 0 <= i < |Print(pieces)|
      ensures Permitted(Print(pieces)[i])
    {
      var c := Print(pieces)[i];
      assert c in Print(pieces);
      if c != ';' {
        var k :| 0 <= k < |parts| && c in parts[k];
        assert Clean(parts[k]);
      }
    }
  }

  lemma {:induction false} CollectPieces(pieces: seq<Piece>, tags: TagList)
    requires AllWellFormed(pieces) && DistinctKeys(tags)
    ensures Collect(Texts(pieces), tags) ==
      if DistinctKeys(tags + TagsIn(pieces)) then Ok(tags + TagsIn(pieces)) else Err(DuplicateTag)
  {
    hide WellFormed, PieceText, ReadSegment;
    if pieces == [] {
      assert tags + [] == tags;
    } else {
      PieceReadsBack(pieces[0]);
      assert Texts(pieces)[1..] == Texts(pieces[1..]);
      match pieces[0] {
        case Blank(_) =>
          CollectPieces(pieces[1..], tags);
        case Tag(_, name, _, _, value, _) =>
          var entry := (name, value);
          assert tags + [entry] + TagsIn(pieces[1..]) == tags + TagsIn(pieces);
          if HasKey(tags, name) {
            var i :| 0 <= i < |tags| && tags[i].0 == name;
            assert (tags + TagsIn(pieces))[i].0 == (tags + TagsIn(pieces))[|tags|].0;
          } else {
            CollectPieces(pieces[1..], tags + [entry]);
          }
      }
    }
  }

  // Any print of a tag list reads back as exactly that list, whatever its padding and its
  // blank segments, unless a name repeats or the version does not come first.
  lemma PrintReadsBack(txt: string, pieces: seq<Piece>)
    requires IsPrintOf(txt, pieces)
    ensures TagsOf(txt) ==
      var tags := TagsIn(pieces);
      if !DistinctKeys(tags) then Err(DuplicateTag)
      else if |tags| > 0 && tags[0] == ("v", "SWORN1") then Ok(tags)
      else Err(NotSworn)
  {
    hide WellFormed, Collect;
    PrintSplits(pieces);
    CollectPieces(pieces, []);
    assert [] + TagsIn(pieces) == TagsIn(pieces);
  }

  lemma {:induction false} CollectHasNoBad(segments: seq<string>, tags: TagList)
    requires Collect(segments, tags).Ok?
    ensures forall i :: 0 <= i < |segments| ==> !ReadSegment(segments[i]).Bad?
  {
    hide ReadSegment;
    if segments != [] {
      match ReadSegment(segments[0]) {
        case Skip =>
          CollectHasNoBad(segments[1..], tags);
        case Pair(name, value) =>
          CollectHasNoBad(segments[1..], tags + [(name, value)]);
      }
      assert forall i :: 1 <= i < |segments| ==> segments[i] == segments[1..][i - 1];
    }
  }

  lemma CleanSegments(txt: string)
    requires AllPermitted(txt)
    ensures forall i :: 0 <= i < |Split(txt, ';')| ==> Clean(Split(txt, ';')[i])
  {
    var segments := Split(txt, ';');
    SplitPartsFree(txt, ';');
    forall i | 0 <= i < |segments|
      ensures Clean(segments[i])
    {
      assert segments[i] in segments;
      forall k | 0 <= k < |segments[i]|
        ensures Permitted(segments[i][k])
      {
        SplitChars(txt, ';', segments[i][k]);
      }
    }
  }

  // Conversely, a text that gets as far as the version test is a print of some pieces.
  lemma ReadIsPrint(txt: string) returns (pieces: seq<Piece>)
    requires TagsOf(txt).Ok? || TagsOf(txt) == Err(NotSworn)
    ensures IsPrintOf(txt, pieces)
  {
    hide Collect, ReadSegment, WellFormed, PieceText, PieceOf;
    var segments := Split(txt, ';');
    CollectErrors(segments, []);
    CollectHasNoBad(segments, []);
    CleanSegments(txt);
    pieces := seq(|segments|, i requires 0 <= i < |segments| => PieceOf(segments[i]));
    forall i | 0 <= i < |segments|
      ensures WellFormed(pieces[i]) && PieceText(pieces[i]) == segments[i]
    {
      SegmentIsPiece(segments[i]);
    }
    assert Texts(pieces) == segments;
    JoinSplit(txt, ';');
  }

  lemma {:induction false} CollectErrors(segments: seq<string>, tags: TagList)
    ensures Collect(segments, tags).Ok? || Collect(segments, tags).error in {MalformedTag, DuplicateTag}
  {
    hide ReadSegment;
    if segments != [] {
      match ReadSegment(segments[0]) {
        case Skip =>
          CollectErrors(segments[1..], tags);
        case Bad =>
        case Pair(name, value) =>
          CollectErrors(segments[1..], tags + [(name, value)]);
      }
    }
  }

  // The accepted texts are exactly the prints of tag lists that start with the version and
  // repeat no name, and the list read is the list printed.
  lemma AcceptedIffPrinted(txt: string, tags: TagList)
    ensures TagsOf(txt) == Ok(tags) <==>
      && |tags| > 0 && tags[0] == ("v", "SWORN1") && DistinctKeys(tags)
      && exists pieces :: IsPrintOf(txt, pieces) && TagsIn(pieces) == tags
  {
    hide TagsOf, IsPrintOf;
    if TagsOf(txt) == Ok(tags) {
      var pieces := ReadIsPrint(txt);
      PrintReadsBack(txt, pieces);
    } else if exists pieces :: IsPrintOf(txt, pieces) && TagsIn(pieces) == tags {
      var pieces :| IsPrintOf(txt, pieces) && TagsIn(pieces) == tags;
      PrintReadsBack(txt, pieces);
    }
  }

  // And "not a SwornMail record" means exactly a well-formed list that does not start so.
  lemma NotSwornIffPrinted(txt: string)
    ensures TagsOf(txt) == Err(NotSworn) <==>
      exists pieces :: IsPrintOf(txt, pieces) && DistinctKeys(TagsIn(pieces))
                       && !(|TagsIn(pieces)| > 0 && TagsIn(pieces)[0] == ("v", "SWORN1"))
  {
    hide TagsOf, IsPrintOf;
    if TagsOf(txt) == Err(NotSworn) {
      var pieces := ReadIsPrint(txt);
      PrintReadsBack(txt, pieces);
    } else if exists pieces :: IsPrintOf(txt, pieces) && DistinctKeys(TagsIn(pieces))
                               && !(|TagsIn(pieces)| > 0 && TagsIn(pieces)[0] == ("v", "SWORN1")) {
      var pieces :| IsPrintOf(txt, pieces) && DistinctKeys(TagsIn(pieces))
                    && !(|TagsIn(pieces)| > 0 && TagsIn(pieces)[0] == ("v", "SWORN1"));
      PrintReadsBack(txt, pieces);
    }
  }

  // ---- The errors, by the first segment at fault ----

  ghost predicate NamedAt(segments: seq<string>, i: int, name: string) {
    0 <= i < |segments| && ReadSegment(segments[i]).Pair? && ReadSegment(segments[i]).name == name
  }

  // Some earlier segment already has the name of segment `i`.
  ghost predicate RepeatsAt(segments: seq<string>, i: int) {
    && 0 <= i < |segments| && ReadSegment(segments[i]).Pair?
    && exists j :: j < i && NamedAt(segments, j, ReadSegment(segments[i]).name)
  }

  ghost predicate FaultAt(segments: seq<string>, i: int) {
    0 <= i < |segments| && (ReadSegment(segments[i]).Bad? || RepeatsAt(segments, i))
  }

  // An octet that is neither HTAB nor printable US-ASCII, by value.
  ghost predicate RefusedOctetAt(txt: string, i: int) {
    0 <= i < |txt| && txt[i] as int != 9 && !(32 <= txt[i] as int <= 126)
  }

  lemma GateIsByOctet(txt: string)
    ensures AllPermitted(txt) <==> forall i :: !RefusedOctetAt(txt, i)
  {
    if !AllPermitted(txt) {
      var i :| 0 <= i < |txt| && !Permitted(txt[i]);
      assert RefusedOctetAt(txt, i);
    }
  }

  ghost predicate FirstFaultAt(segments: seq<string>, i: int) {
    FaultAt(segments, i) && forall j :: j < i ==> !FaultAt(segments, j)
  }

  function PairsIn(segments: seq<string>): TagList {
    if segments == [] then []
    else
      var front := PairsIn(segments[..|segments| - 1]);
      match ReadSegment(segments[|segments| - 1])
      case Pair(name, value) => front + [(name, value)]
      case _ => front
  }

  lemma {:induction false} PairsAreNamed(segments: seq<string>, name: string)
    ensures HasKey(PairsIn(segments), name) <==> exists i :: NamedAt(segments, i, name)
  {
    hide ReadSegment;
    if segments != [] {
      var n := |segments| - 1;
      var front := segments[..n];
      PairsAreNamed(front, name);
      assert NamedAt(segments, n, name) <==> ReadSegment(segments[n]).Pair? && ReadSegment(segments[n]).name == name;
      assert forall i :: i != n ==> (NamedAt(segments, i, name) <==> NamedAt(front, i, name));
      var pairs := PairsIn(front);
      match ReadSegment(segments[n]) {
        case Pair(first, value) =>
          LastHasKey(pairs, first, value, name);
        case _ =>
      }
    }
  }

  lemma LastHasKey(tags: TagList, first: string, value: string, name: string)
    ensures HasKey(tags + [(first, value)], name) <==> HasKey(tags, name) || first == name
  {
    var more := tags + [(first, value)];
    assert more[|tags|].0 == first;
    if HasKey(tags, name) {
      var i :| 0 <= i < |tags| && tags[i].0 == name;
      assert more[i].0 == name;
    }
  }

  // Up to its first fault the loop has collected what it read so far.
  lemma {:induction false} CollectUpTo(segments: seq<string>, n: nat)
    requires n <= |segments| && forall i :: i < n ==> !FaultAt(segments, i)
    ensures Collect(segments, []) == Collect(segments[n..], PairsIn(segments[..n]))
  {
    hide ReadSegment, FaultAt;
    if n == 0 {
      assert segments[0..] == segments;
    } else {
      CollectUpTo(segments, n - 1);
      assert segments[n - 1..][1..] == segments[n..];
      assert segments[..n][..n - 1] == segments[..n - 1];
      FaultMeans(segments, n - 1);
    }
  }

  lemma FaultMeans(segments: seq<string>, n: nat)
    requires n < |segments|
    ensures FaultAt(segments, n) <==>
      match ReadSegment(segments[n])
      case Skip => false
      case Bad => true
      case Pair(name, _) => HasKey(PairsIn(segments[..n]), name)
  {
    hide ReadSegment;
    match ReadSegment(segments[n]) {
      case Pair(name, _) =>
        PairsAreNamed(segments[..n], name);
        assert forall j :: j < n ==> (NamedAt(segments[..n], j, name) <==> NamedAt(segments, j, name));
        assert forall j :: NamedAt(segments[..n], j, name) ==> j < n;
      case _ =>
    }
  }

  lemma FirstFault(segments: seq<string>) returns (n: nat)
    ensures n <= |segments| && forall i :: i < n ==> !FaultAt(segments, i)
    ensures n < |segments| ==> FirstFaultAt(segments, n)
  {
    hide FaultAt;
    n := 0;
    FaultsAreInside(segments);
    while n < |segments| && !FaultAt(segments, n)
      invariant n <= |segments| && forall i :: i < n ==> !FaultAt(segments, i)
    {
      n := n + 1;
    }
  }

  lemma FaultsAreInside(segments: seq<string>)
    ensures forall i :: FaultAt(segments, i) ==> 0 <= i < |segments|
  {
  }

  lemma CollectStopsAtFirstFault(segments: seq<string>, n: nat)
    requires FirstFaultAt(segments, n)
    ensures Collect(segments, []) == Err(if ReadSegment(segments[n]).Bad? then MalformedTag else DuplicateTag)
  {
    hide ReadSegment, RepeatsAt;
    CollectUpTo(segments, n);
    FaultMeans(segments, n);
  }

  // A record is malformed exactly when an octet is not permitted or the first segment at fault
  // does not read, and has a duplicate exactly when that segment repeats an earlier name.
  lemma ErrorsNameTheFirstFault(txt: string)
    ensures var segments := Split(txt, ';');
      && (TagsOf(txt) == Err(MalformedTag) <==>
            || (exists i :: RefusedOctetAt(txt, i))
            || exists n :: FirstFaultAt(segments, n) && ReadSegment(segments[n]).Bad?)
      && (TagsOf(txt) == Err(DuplicateTag) <==>
            && (forall i :: !RefusedOctetAt(txt, i))
            && exists n :: FirstFaultAt(segments, n) && !ReadSegment(segments[n]).Bad?)
  {
    hide ReadSegment, Split, AllPermitted, RefusedOctetAt, FaultAt;
    var segments := Split(txt, ';');
    GateIsByOctet(txt);
    FaultsAreInside(segments);
    var n := FirstFault(segments);
    forall k | FirstFaultAt(segments, k)
      ensures k == n
    {
      assert FaultAt(segments, k) && (n < |segments| ==> FaultAt(segments, n));
    }
    if n < |segments| {
      CollectStopsAtFirstFault(segments, n);
      assert AllPermitted(txt) ==>
          TagsOf(txt) == Err(if ReadSegment(segments[n]).Bad? then MalformedTag else DuplicateTag);
      assert FirstFaultAt(segments, n);
    } else {
      CollectUpTo(segments, n);
      assert segments[n..] == [];
      assert !exists k :: FirstFaultAt(segments, k);
    }
  }

  // ---- The plain form of a tag list ----

  function Plain(tags: TagList): (r: seq<Piece>)
    ensures |r| == |tags|
  {
    if tags == [] then [] else [Tag("", tags[0].0, "", "", tags[0].1, "")] + Plain(tags[1..])
  }

  predicate Printable(tags: TagList) {
    forall i :: 0 <= i < |tags| ==> IsName(tags[i].0) && IsValue(tags[i].1)
  }

  lemma {:induction false} PlainPieces(tags: TagList)
    requires Printable(tags)
    ensures AllWellFormed(Plain(tags)) && TagsIn(Plain(tags)) == tags
  {
    hide IsName, IsValue;
    if tags != [] {
      PlainPieces(tags[1..]);
      assert tags == [tags[0]] + tags[1..];
      assert Plain(tags)[1..] == Plain(tags[1..]);
    }
  }

  lemma {:induction false} PrintedTagsArePrintable(pieces: seq<Piece>)
    requires AllWellFormed(pieces)
    ensures Printable(TagsIn(pieces))
  {
    hide IsName, IsValue, IsPad;
    if pieces != [] {
      PrintedTagsArePrintable(pieces[1..]);
      assert WellFormed(pieces[0]);
    }
  }

  // Parse, print plainly, parse again: nothing changes.
  lemma PlainFormIsStable(txt: string, tags: TagList)
    requires TagsOf(txt) == Ok(tags)
    ensures |tags| > 0 && Printable(tags) && DistinctKeys(tags)
    ensures TagsOf(Print(Plain(tags))) == Ok(tags)
  {
    hide TagsOf;
    AcceptedIffPrinted(txt, tags);
    var pieces :| IsPrintOf(txt, pieces) && TagsIn(pieces) == tags;
    PrintedTagsArePrintable(pieces);
    PlainPieces(tags);
    PrintReadsBack(Print(Plain(tags)), Plain(tags));
  }
}
