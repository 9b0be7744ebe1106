/** The Listening-Configs text: the client prints entries, the server splits them by hand. */
module ListeningCodec {
  import opened ConfigStorage
  import opened ConfigService

  // ---------- finding and splitting ----------

  predicate OccursAt(s: string, sub: string, i: int) {
    0 <= i <= |s| - |sub| && s[i..i + |sub|] == sub
  }

  ghost predicate IsFirst(s: string, sub: string, i: int) {
    if i < 0 then i == -1 && forall j :: !OccursAt(s, sub, j)
    else OccursAt(s, sub, i) && forall j :: 0 <= j < i ==> !OccursAt(s, sub, j)
  }

  function Find(s: string, sub: string, i: nat): (k: int)
    requires i <= |s| + 1
    ensures k == -1 || i <= k <= |s| - |sub|
    decreases |s| + 1 - i
  {
    if i > |s| - |sub| then -1
    else if s[i..i + |sub|] == sub then i
    else Find(s, sub, i + 1)
  }

  lemma {:induction false} FindIsFirst(s: string, sub: string, i: nat)
    requires i <= |s| + 1
    ensures var k := Find(s, sub, i);
            && (k >= 0 ==> OccursAt(s, sub, k))
            && forall j :: i <= j && (k < 0 || j < k) ==> !OccursAt(s, sub, j)
    decreases |s| + 1 - i
  {
    if i <= |s| - |sub| && s[i..i + |sub|] != sub {
      FindIsFirst(s, sub, i + 1);
    }
  }

  method IndexOf(s: string, sub: string) returns (k: int)
    ensures IsFirst(s, sub, k)
  {
    var i := 0;
    while i <= |s| - |sub|
      invariant 0 <= i
      invariant forall j :: 0 <= j < i ==> !OccursAt(s, sub, j)
    {
      if s[i..i + |sub|] == sub {
        return i;
      }
      i := i + 1;
    }
    k := -1;
  }

  /** The pieces between separators; an empty piece at the very end is dropped. */
  function Pieces(s: string, sep: string): seq<string>
    requires sep != ""
    decreases |s|
  {
    var i := Find(s, sep, 0);
    if i < 0 then (if s != "" then [s] else [])
    else [s[..i]] + Pieces(s[i + |sep|..], sep)
  }

  lemma FirstIsFound(s: string, sub: string, k: int)
    requires IsFirst(s, sub, k)
    ensures k == Find(s, sub, 0)
  {
    FindIsFirst(s, sub, 0);
  }

  /** What is found so far and the pieces of what is left make up the pieces of the text. */
  ghost predicate Splits(result: seq<string>, s: string, text: string, sep: string)
    requires sep != ""
  {
    result + Pieces(s, sep) == Pieces(text, sep)
  }

  lemma FinalPiece(result: seq<string>, s: string, text: string, sep: string)
    requires sep != "" && Find(s, sep, 0) < 0 && Splits(result, s, text, sep)
    ensures (if s != "" then result + [s] else result) == Pieces(text, sep)
  {
  }

  lemma PieceCut(s: string, sep: string)
    requires sep != "" && Find(s, sep, 0) >= 0
    ensures Pieces(s, sep) == [s[..Find(s, sep, 0)]] + Pieces(s[Find(s, sep, 0) + |sep|..], sep)
  {
  }

  lemma Regroup<T>(a: seq<T>, x: T, b: seq<T>)
    ensures a + ([x] + b) == (a + [x]) + b
  {
  }

  lemma PieceMoves(result: seq<string>, s: string, text: string, sep: string)
    requires sep != "" && Find(s, sep, 0) >= 0 && Splits(result, s, text, sep)
    ensures var i := Find(s, sep, 0); Splits(result + [s[..i]], s[i + |sep|..], text, sep)
  {
    PieceCut(s, sep);
    Regroup(result, s[..Find(s, sep, 0)], Pieces(s[Find(s, sep, 0) + |sep|..], sep));
  }

  lemma NextPiece(result: seq<string>, s: string, text: string, sep: string, i: int)
    requires sep != "" && 0 <= i == Find(s, sep, 0) && Splits(result, s, text, sep)
    ensures Splits(result + [s[..i]], s[i + |sep|..], text, sep)
  {
    PieceMoves(result, s, text, sep);
  }

  /** With an empty separator the loop would never end; the handlers pass one character. */
  method Split(text: string, sep: string) returns (result: seq<string>)
    requires sep != ""
    ensures result == Pieces(text, sep)
  {
    result := [];
    var s := text;
    while true
      invariant Splits(result, s, text, sep)
      decreases |s|
    {
      var i := IndexOf(s, sep);
      FirstIsFound(s, sep, i);
      if i < 0 {
        FinalPiece(result, s, text, sep);
        if s != "" {
          result := result + [s];
        }
        break;
      }
      NextPiece(result, s, text, sep, i);
      result := result + [s[..i]];
      s := s[i + |sep|..];
    }
  }

  function Join(pieces: seq<string>, sep: string): string {
    if pieces == [] then ""
    else if |pieces| == 1 then pieces[0]
    else pieces[0] + sep + Join(pieces[1..], sep)
  }

  /** Rejoining the pieces gives the text back, up to one separator at its end. */
  lemma {:induction false} RejoinPieces(s: string, sep: string)
    requires sep != ""
    ensures s == Join(Pieces(s, sep), sep) || s == Join(Pieces(s, sep), sep) + sep
    ensures Pieces(s, sep) == [] <==> s == ""
    decreases |s|
  {
    var i := Find(s, sep, 0);
    if i >= 0 {
      var a, rest := s[..i], s[i + |sep|..];
      RejoinPieces(rest, sep);
      FindIsFirst(s, sep, 0);
      Cut(s, sep, i);
      Glue(s, a, sep, rest, Pieces(rest, sep));
    }
  }

  lemma Cut(s: string, sep: string, i: int)
    requires OccursAt(s, sep, i)
    ensures s == s[..i] + sep + s[i + |sep|..]
  {
  }

  lemma Glue(s: string, a: string, sep: string, rest: string, pieces: seq<string>)
    requires s == a + sep + rest
    requires rest == Join(pieces, sep) || rest == Join(pieces, sep) + sep
    requires pieces == [] <==> rest == ""
    ensures s == Join([a] + pieces, sep) || s == Join([a] + pieces, sep) + sep
  {
    var tail := Join(pieces, sep);
    JoinStep(a, pieces, sep);
    assert a + sep + (tail + sep) == (a + sep + tail) + sep;
    assert a + sep + "" == a + sep;
  }

  lemma JoinStep(a: string, rest: seq<string>, sep: string)
    ensures Join([a] + rest, sep) == if rest == [] then a else a + sep + Join(rest, sep)
  {
    assert ([a] + rest)[1..] == rest;
  }

  /** No piece still holds a separator. */
  lemma {:induction false} PiecesAreClean(s: string, sep: string, k: nat, j: int)
    requires sep != "" && k < |Pieces(s, sep)|
    ensures !OccursAt(Pieces(s, sep)[k], sep, j)
    decreases |s|
  {
    var i := Find(s, sep, 0);
    if i < 0 {
      FindIsFirst(s, sep, 0);
    } else {
      if k > 0 {
        PiecesAreClean(s[i + |sep|..], sep, k - 1, j);
      } else {
        CutIsClean(s, sep, j);
      }
    }
  }

  lemma CutIsClean(s: string, sep: string, j: int)
    requires sep != "" && Find(s, sep, 0) >= 0
    ensures !OccursAt(s[..Find(s, sep, 0)], sep, j)
  {
    var i := Find(s, sep, 0);
    FindIsFirst(s, sep, 0);
    if 0 <= j <= i - |sep| {
      assert s[..i][j..j + |sep|] == s[j..j + |sep|];
      assert !OccursAt(s, sep, j);
    }
  }

  /** One separator character: the text before its first occurrence is the first piece. */
  lemma FirstPiece(a: string, c: char, rest: string)
    requires c !in a
    ensures Pieces(a + [c] + rest, [c]) == [a] + Pieces(rest, [c])
  {
    var s := a + [c] + rest;
    assert s[|a|..|a| + 1] == [c];
    assert OccursAt(s, [c], |a|);
    forall j | 0 <= j < |a| ensures !OccursAt(s, [c], j) {
      assert s[j] == a[j] && a[j] in a;
      assert s[j..j + 1] == [s[j]];
    }
    FirstIsFound(s, [c], |a|);
    assert s[..|a|] == a && s[|a| + 1..] == rest;
  }

  lemma LastPiece(a: string, c: char)
    requires c !in a
    ensures Pieces(a, [c]) == if a != "" then [a] else []
  {
    forall j | 0 <= j < |a| ensures !OccursAt(a, [c], j) {
      assert a[j] in a;
      assert a[j..j + 1] == [a[j]];
    }
    FirstIsFound(a, [c], -1);
  }

  // ---------- trimming ----------

  predicate IsSpace(c: char) {
    c == ' ' || c == '\n' || c == '\r' || c == '\t'
  }

  function TrimLeft(s: string): string {
    if s != "" && IsSpace(s[0]) then TrimLeft(s[1..]) else s
  }

  function TrimRight(s: string): string {
    if s != "" && IsSpace(s[|s| - 1]) then TrimRight(s[..|s| - 1]) else s
  }

  method TrimSpace(s: string) returns (r: string)
    ensures r == TrimRight(TrimLeft(s))
  {
    var start := 0;
    assert s[0..] == s;
    while start < |s| && IsSpace(s[start])
      invariant start <= |s| && TrimLeft(s[start..]) == TrimLeft(s)
    {
      assert s[start..][1..] == s[start + 1..];
      start := start + 1;
    }
    var end := |s|;
    assert s[start..end] == s[start..];
    while end > start && IsSpace(s[end - 1])
      invariant start <= end <= |s| && TrimRight(s[start..end]) == TrimRight(s[start..])
    {
      assert s[start..end][..end - start - 1] == s[start..end - 1];
      end := end - 1;
    }
    r := s[start..end];
  }

  lemma {:induction false} LeftEnd(s: string) returns (a: nat)
    ensures a <= |s| && TrimLeft(s) == s[a..] && forall i :: 0 <= i < a ==> IsSpace(s[i])
    ensures a < |s| ==> !IsSpace(s[a])
  {
    if s != "" && IsSpace(s[0]) {
      var k := LeftEnd(s[1..]);
      a := k + 1;
    } else {
      a := 0;
    }
  }

  lemma {:induction false} RightEnd(s: string) returns (b: nat)
    ensures b <= |s| && TrimRight(s) == s[..b] && forall i :: b <= i < |s| ==> IsSpace(s[i])
    ensures b > 0 ==> !IsSpace(s[b - 1])
  {
    if s != "" && IsSpace(s[|s| - 1]) {
      b := RightEnd(s[..|s| - 1]);
    } else {
      b := |s|;
    }
  }

  lemma TrimmedAt(s: string) returns (a: nat, b: nat)
    ensures a <= b <= |s| && TrimRight(TrimLeft(s)) == s[a..b]
    ensures forall i :: 0 <= i < a || b <= i < |s| ==> IsSpace(s[i])
    ensures a < b ==> !IsSpace(s[a]) && !IsSpace(s[b - 1])
  {
    a := LeftEnd(s);
    var t := s[a..];
    var c := RightEnd(t);
    b := a + c;
    forall i | b <= i < |s| ensures IsSpace(s[i]) {
      assert t[i - a] == s[i];
    }
  }

  /** Trimming cuts off blanks, line feeds, carriage returns and tabs at both ends, all of them and
      nothing else. */
  lemma TrimmedText(s: string) returns (a: nat, b: nat)
    ensures a <= b <= |s| && TrimRight(TrimLeft(s)) == s[a..b]
    ensures forall i :: 0 <= i < a || b <= i < |s| ==> s[i] == ' ' || s[i] == '\n' || s[i] == '\r' || s[i] == '\t'
    ensures a < b ==> s[a] != ' ' && s[a] != '\n' && s[a] != '\r' && s[a] != '\t'
    ensures a < b ==> s[b - 1] != ' ' && s[b - 1] != '\n' && s[b - 1] != '\r' && s[b - 1] != '\t'
  {
    a, b := TrimmedAt(s);
  }

  lemma {:induction false} TrimLeftStops(a: string, c: char, rest: string)
    requires !IsSpace(c)
    ensures TrimLeft(a + [c] + rest) == TrimLeft(a) + [c] + rest
  {
    if a != "" && IsSpace(a[0]) {
      assert (a + [c] + rest)[1..] == a[1..] + [c] + rest;
      TrimLeftStops(a[1..], c, rest);
    }
  }

  lemma {:induction false} TrimRightStops(before: string, c: char, a: string)
    requires !IsSpace(c)
    ensures TrimRight(before + [c] + a) == before + [c] + TrimRight(a)
    decreases |a|
  {
    var s := before + [c] + a;
    if a == "" {
      assert s[|s| - 1] == c;
      assert s == before + [c] + TrimRight(a);
    } else {
      assert s[|s| - 1] == a[|a| - 1];
      if IsSpace(a[|a| - 1]) {
        assert s[..|s| - 1] == before + [c] + a[..|a| - 1];
        TrimRightStops(before, c, a[..|a| - 1]);
      }
    }
  }

  lemma {:induction false} TrimLeftKeeps(a: string)
    ensures TrimLeft(a) == a <==> a == "" || !IsSpace(a[0])
    ensures |TrimLeft(a)| <= |a|
  {
    if a != "" && IsSpace(a[0]) {
      TrimLeftKeeps(a[1..]);
    }
  }

  lemma {:induction false} TrimRightKeeps(a: string)
    ensures TrimRight(a) == a <==> a == "" || !IsSpace(a[|a| - 1])
    ensures |TrimRight(a)| <= |a|
    ensures forall c :: c !in a ==> c !in TrimRight(a)
  {
    if a != "" && IsSpace(a[|a| - 1]) {
      TrimRightKeeps(a[..|a| - 1]);
    }
  }

  lemma {:induction false} TrimLeftWithin(a: string, c: char)
    requires c !in a
    ensures c !in TrimLeft(a)
  {
    if a != "" && IsSpace(a[0]) {
      TrimLeftWithin(a[1..], c);
    }
  }

  // ---------- entries ----------

  const ENTRY_END := 1 as char
  const FIELD_END := 2 as char

  datatype Entry = Entry(dataId: string, group: string, md5: string, tenant: string)

  function Body(e: Entry): string {
    e.dataId + [FIELD_END] + (e.group + [FIELD_END] + (e.md5 + [FIELD_END] + e.tenant))
  }

  function Encode(es: seq<Entry>): string {
    if es == [] then "" else Body(es[0]) + [ENTRY_END] + Encode(es[1..])
  }

  /** The text of one entry, as the client formats it. */
  lemma PrintedForm(e: Entry)
    ensures Encode([e]) == e.dataId + "\U{0002}" + e.group + "\U{0002}" + e.md5 + "\U{0002}" + e.tenant + "\U{0001}"
  {
    assert Encode([e]) == Body(e) + [ENTRY_END] + Encode([]);
  }

  function Fields(e: Entry): seq<string> {
    [e.dataId, e.group, e.md5, e.tenant]
  }

  function AllFields(es: seq<Entry>): seq<seq<string>> {
    if es == [] then [] else [Fields(es[0])] + AllFields(es[1..])
  }

  /** The parts of an entry, white space around it cut off. */
  function Parts(entry: string): seq<string> {
    Pieces(TrimRight(TrimLeft(entry)), [FIELD_END])
  }

  /** What the parser keeps of the pieces between entry separators. */
  function Kept(entries: seq<string>): seq<seq<string>> {
    if entries == [] then []
    else
      var parts := Parts(entries[0]);
      (if |parts| >= 3 then [parts] else []) + Kept(entries[1..])
  }

  function Parsed(input: string): seq<seq<string>> {
    Kept(Pieces(input, [ENTRY_END]))
  }

  lemma KeptStep(entries: seq<string>, i: nat)
    requires i < |entries|
    ensures var entry := TrimRight(TrimLeft(entries[i]));
            var parts := Pieces(entry, [FIELD_END]);
            Kept(entries[i..]) ==
            if entry != "" && |parts| >= 3 then [parts] + Kept(entries[i + 1..]) else Kept(entries[i + 1..])
  {
    assert entries[i..][1..] == entries[i + 1..];
    LastPiece("", FIELD_END);
  }

  /** Which of the entries are kept. */
  function KeptAt(entries: seq<string>): seq<nat> {
    if entries == [] then []
    else
      var last: nat := |entries| - 1;
      KeptAt(entries[..last]) + if |Parts(entries[last])| >= 3 then [last] else []
  }

  lemma {:induction false} KeptOneMore(entries: seq<string>, entry: string)
    ensures Kept(entries + [entry]) == Kept(entries) + (if |Parts(entry)| >= 3 then [Parts(entry)] else [])
  {
    if entries == [] {
      assert (entries + [entry])[1..] == [];
    } else {
      var kept := if |Parts(entry)| >= 3 then [Parts(entry)] else [];
      KeptOneMore(entries[1..], entry);
      assert (entries + [entry])[1..] == entries[1..] + [entry] && (entries + [entry])[0] == entries[0];
      var first := if |Parts(entries[0])| >= 3 then [Parts(entries[0])] else [];
      assert first + (Kept(entries[1..]) + kept) == (first + Kept(entries[1..])) + kept;
    }
  }

  lemma {:induction false} KeptAtRises(entries: seq<string>, i: nat, j: nat)
    requires j < |KeptAt(entries)|
    ensures KeptAt(entries)[j] < |entries|
    ensures i < j ==> KeptAt(entries)[i] < KeptAt(entries)[j]
  {
    var last: nat := |entries| - 1;
    var before := KeptAt(entries[..last]);
    if j < |before| {
      KeptAtRises(entries[..last], i, j);
    } else if i < j {
      KeptAtRises(entries[..last], i, i);
    }
  }

  lemma {:induction false} KeptAtAll(entries: seq<string>, p: nat)
    ensures p in KeptAt(entries) <==> p < |entries| && |Parts(entries[p])| >= 3
  {
    if entries != [] {
      var last: nat := |entries| - 1;
      KeptAtAll(entries[..last], p);
      assert p in KeptAt(entries) <==> p in KeptAt(entries[..last]) || (p == last && |Parts(entries[last])| >= 3);
    }
  }

  lemma {:induction false} KeptShown(entries: seq<string>, i: nat)
    ensures |Kept(entries)| == |KeptAt(entries)|
    ensures i < |KeptAt(entries)| ==>
              KeptAt(entries)[i] < |entries| && Kept(entries)[i] == Parts(entries[KeptAt(entries)[i]])
  {
    if entries != [] {
      var before, entry := entries[..|entries| - 1], entries[|entries| - 1];
      KeptShown(before, i);
      KeptOneMore(before, entry);
      assert entries == before + [entry];
    }
  }

  lemma FilterKeeps(entries: seq<string>) returns (at: seq<nat>)
    ensures |at| == |Kept(entries)| && forall i, j :: 0 <= i < j < |at| ==> at[i] < at[j]
    ensures forall p: nat :: p in at <==> p < |entries| && |Parts(entries[p])| >= 3
    ensures forall i :: 0 <= i < |at| ==> at[i] < |entries| && Kept(entries)[i] == Parts(entries[at[i]])
  {
    at := KeptAt(entries);
    KeptShown(entries, 0);
    forall i, j | 0 <= i < j < |at| ensures at[i] < at[j] {
      KeptAtRises(entries, i, j);
    }
    forall p: nat ensures p in at <==> p < |entries| && |Parts(entries[p])| >= 3 {
      KeptAtAll(entries, p);
    }
    forall i | 0 <= i < |at| ensures at[i] < |entries| && Kept(entries)[i] == Parts(entries[at[i]]) {
      KeptShown(entries, i);
    }
  }

  /** Of the pieces of any text the parser keeps, in order, the parts of exactly those that have three
      or more. */
  lemma ParserKeeps(input: string) returns (entries: seq<string>, at: seq<nat>)
    ensures entries == Pieces(input, [1 as char])
    ensures |at| == |Parsed(input)| && forall i, j :: 0 <= i < j < |at| ==> at[i] < at[j]
    ensures forall p: nat :: p in at <==> p < |entries| && |Parts(entries[p])| >= 3
    ensures forall i :: 0 <= i < |at| ==> at[i] < |entries| && Parsed(input)[i] == Parts(entries[at[i]])
  {
    entries := Pieces(input, [ENTRY_END]);
    at := FilterKeeps(entries);
  }

  method SplitListeningConfigs(input: string) returns (result: seq<seq<string>>)
    ensures result == Parsed(input)
  {
    result := [];
    var entries := Split(input, [ENTRY_END]);
    for i := 0 to |entries|
      invariant result + Kept(entries[i..]) == Kept(entries)
    {
      var entry := TrimSpace(entries[i]);
      KeptStep(entries, i);
      if entry != "" {
        var parts := Split(entry, [FIELD_END]);
        if |parts| >= 3 {
          Regroup(result, parts, Kept(entries[i + 1..]));
          result := result + [parts];
        }
      }
    }
  }

  predicate SeparatorFree(s: string) {
    ENTRY_END !in s && FIELD_END !in s
  }

  predicate AllSeparatorFree(e: Entry) {
    SeparatorFree(e.dataId) && SeparatorFree(e.group) && SeparatorFree(e.md5) && SeparatorFree(e.tenant)
  }

  /** What the server hears of a printed entry: it trims the data id on the left, the tenant on the
      right, and loses a tenant that trims to nothing. */
  function Heard(e: Entry): seq<string> {
    var tenant := TrimRight(e.tenant);
    [TrimLeft(e.dataId), e.group, e.md5] + (if tenant != "" then [tenant] else [])
  }

  lemma BodyHasNoEnd(e: Entry)
    requires AllSeparatorFree(e)
    ensures ENTRY_END !in Body(e)
  {
  }

  /** A body up to the separator before the tenant. */
  function Head(e: Entry): string {
    e.dataId + [FIELD_END] + (e.group + [FIELD_END] + e.md5)
  }

  lemma BodyHasHead(e: Entry)
    ensures Body(e) == Head(e) + [FIELD_END] + e.tenant
  {
  }

  lemma LeftTrimmed(e: Entry)
    ensures TrimLeft(Body(e)) == Body(e.(dataId := TrimLeft(e.dataId)))
  {
    TrimLeftStops(e.dataId, FIELD_END, e.group + [FIELD_END] + (e.md5 + [FIELD_END] + e.tenant));
  }

  lemma BodyTrimmed(e: Entry)
    ensures TrimRight(TrimLeft(Body(e))) ==
            Body(Entry(TrimLeft(e.dataId), e.group, e.md5, TrimRight(e.tenant)))
  {
    var left := e.(dataId := TrimLeft(e.dataId));
    LeftTrimmed(e);
    BodyHasHead(left);
    TrimRightStops(Head(left), FIELD_END, e.tenant);
    BodyHasHead(left.(tenant := TrimRight(e.tenant)));
  }

  lemma BodySplits(e: Entry)
    requires FIELD_END !in e.dataId && FIELD_END !in e.group && FIELD_END !in e.md5 && FIELD_END !in e.tenant
    ensures Pieces(Body(e), [FIELD_END]) ==
            [e.dataId] + ([e.group] + ([e.md5] + (if e.tenant != "" then [e.tenant] else [])))
  {
    var f := [FIELD_END];
    FirstPiece(e.dataId, FIELD_END, e.group + f + (e.md5 + f + e.tenant));
    FirstPiece(e.group, FIELD_END, e.md5 + f + e.tenant);
    FirstPiece(e.md5, FIELD_END, e.tenant);
    LastPiece(e.tenant, FIELD_END);
  }

  lemma BodyHeard(e: Entry)
    requires AllSeparatorFree(e)
    ensures Pieces(TrimRight(TrimLeft(Body(e))), [FIELD_END]) == Heard(e)
  {
    BodyTrimmed(e);
    TrimLeftWithin(e.dataId, FIELD_END);
    TrimRightKeeps(e.tenant);
    BodySplits(Entry(TrimLeft(e.dataId), e.group, e.md5, TrimRight(e.tenant)));
  }

  lemma OneMoreHeard(e: Entry, rest: string)
    requires AllSeparatorFree(e)
    ensures Parsed(Body(e) + [ENTRY_END] + rest) == [Heard(e)] + Parsed(rest)
  {
    BodyHeard(e);
    BodyHasNoEnd(e);
    FirstPiece(Body(e), ENTRY_END, rest);
    var entries := [Body(e)] + Pieces(rest, [ENTRY_END]);
    assert entries[1..] == Pieces(rest, [ENTRY_END]);
  }

  /** The parser returns one list of parts per entry, as heard. */
  lemma {:induction false} EntriesHeard(es: seq<Entry>)
    requires forall e :: e in es ==> AllSeparatorFree(e)
    ensures |Parsed(Encode(es))| == |es|
    ensures forall i :: 0 <= i < |es| ==> Parsed(Encode(es))[i] == Heard(es[i])
  {
    if es == [] {
      NothingParsed();
    } else {
      EntriesHeard(es[1..]);
      OneMoreHeard(es[0], Encode(es[1..]));
      assert Parsed(Encode(es)) == [Heard(es[0])] + Parsed(Encode(es[1..]));
    }
  }

  /** No white space in front of the data id, and a tenant that does not end in white space. */
  predicate Audible(e: Entry) {
    (e.dataId == "" || !IsSpace(e.dataId[0])) && e.tenant != "" && !IsSpace(e.tenant[|e.tenant| - 1])
  }

  lemma HeardRight(e: Entry)
    ensures Heard(e) == Fields(e) <==> Audible(e)
  {
    TrimLeftKeeps(e.dataId);
    TrimRightKeeps(e.tenant);
    if Heard(e) == Fields(e) {
      assert Heard(e)[0] == Fields(e)[0];
      assert |Heard(e)| == 4 && Heard(e)[3] == Fields(e)[3];
    }
  }

  lemma {:induction false} FieldsAt(es: seq<Entry>)
    ensures |AllFields(es)| == |es| && forall i :: 0 <= i < |es| ==> AllFields(es)[i] == Fields(es[i])
  {
    if es != [] {
      FieldsAt(es[1..]);
    }
  }

  /** For fields free of separators, the server reads back what the client printed exactly when
      every entry is audible. */
  lemma RoundTrip(es: seq<Entry>)
    requires forall e :: e in es ==> AllSeparatorFree(e)
    ensures Parsed(Encode(es)) == AllFields(es) <==> forall e :: e in es ==> Audible(e)
  {
    EntriesHeard(es);
    FieldsAt(es);
    forall i | 0 <= i < |es| ensures Heard(es[i]) == Fields(es[i]) <==> Audible(es[i]) {
      HeardRight(es[i]);
    }
    if Parsed(Encode(es)) == AllFields(es) {
      forall e | e in es ensures Audible(e) {
        var i :| 0 <= i < |es| && es[i] == e;
        assert Parsed(Encode(es))[i] == AllFields(es)[i];
      }
    }
  }

  // ---------- the listener handler ----------

  datatype Request = BadRequest | Panic | Listen(ns: string, client: Digests)

  predicate AllFour(entries: seq<seq<string>>) {
    forall i :: 0 <= i < |entries| ==> |entries[i]| >= 4
  }

  /** The digests the entries announce; for a repeated key the last entry counts. */
  function ClientMap(entries: seq<seq<string>>): Digests
    requires AllFour(entries)
  {
    if entries == [] then map[]
    else
      var e := entries[|entries| - 1];
      ClientMap(entries[..|entries| - 1])[Joined(Key(e[3], e[1], e[0])) := e[2]]
  }

  /** The namespace to poll: the tenant of the last entry that has one, else the request's. */
  function PolledNamespace(entries: seq<seq<string>>, ns: string): string
    requires AllFour(entries)
  {
    if entries == [] then ns
    else
      var tenant := entries[|entries| - 1][3];
      if tenant != "" then tenant else PolledNamespace(entries[..|entries| - 1], ns)
  }

  /** The guard admits entries of three parts, but the key needs a fourth: those panic. */
  method ConfigListener(listening: string, tenant: string) returns (r: Request)
    ensures r.BadRequest? <==> listening == ""
    ensures r.Panic? <==> !AllFour(Parsed(listening))
    ensures r.Listen? ==> r.client == ClientMap(Parsed(listening))
                          && r.ns == PolledNamespace(Parsed(listening), tenant)
  {
    if listening == "" {
      NothingParsed();
      return BadRequest;
    }
    var clientMD5 := map[];
    var ns := tenant;
    var entries := SplitListeningConfigs(listening);
    LongEnough(Pieces(listening, [ENTRY_END]));
    for i := 0 to |entries|
      invariant AllFour(entries[..i])
      invariant clientMD5 == ClientMap(entries[..i]) && ns == PolledNamespace(entries[..i], tenant)
    {
      var entry := entries[i];
      ghost var before := entries[..i];
      assert entries[..i + 1] == before + [entry];
      if |entry| >= 3 {
        if |entry| == 3 {
          return Panic;
        }
        Appended(before, entry, tenant);
        clientMD5 := clientMD5[Joined(Key(entry[3], entry[1], entry[0])) := entry[2]];
        if entry[3] != "" {
          ns := entry[3];
        }
      }
    }
    assert entries[..|entries|] == entries;
    r := Listen(ns, clientMD5);
  }

  lemma NothingParsed()
    ensures Parsed("") == []
  {
    LastPiece("", ENTRY_END);
  }

  /** One more entry overrides the digest of its key, and its tenant, if it names one, is polled. */
  lemma Appended(before: seq<seq<string>>, entry: seq<string>, tenant: string)
    requires AllFour(before) && |entry| >= 4
    ensures AllFour(before + [entry])
    ensures ClientMap(before + [entry]) == ClientMap(before)[Joined(Key(entry[3], entry[1], entry[0])) := entry[2]]
    ensures PolledNamespace(before + [entry], tenant) ==
            if entry[3] != "" then entry[3] else PolledNamespace(before, tenant)
  {
    assert (before + [entry])[..|before|] == before;
  }

  /** The parser keeps no entry of fewer than three parts. */
  lemma {:induction false} LongEnough(entries: seq<string>)
    ensures forall i :: 0 <= i < |Kept(entries)| ==> |Kept(entries)[i]| >= 3
  {
    if entries != [] {
      LongEnough(entries[1..]);
    }
  }

  /** Printed entries make the handler panic exactly when some tenant is blank; the client's default
      replaces only the empty tenant. */
  lemma BlankTenantPanics(es: seq<Entry>)
    requires forall e :: e in es ==> AllSeparatorFree(e)
    ensures !AllFour(Parsed(Encode(es))) <==> exists e :: e in es && TrimRight(e.tenant) == ""
  {
    EntriesHeard(es);
    assert forall i :: 0 <= i < |es| ==> (|Parsed(Encode(es))[i]| >= 4 <==> TrimRight(es[i].tenant) != "");
    if e :| e in es && TrimRight(e.tenant) == "" {
      var i :| 0 <= i < |es| && es[i] == e;
      assert |Parsed(Encode(es))[i]| < 4;
    }
  }

  lemma {:induction false} EntryAnnounced(entries: seq<seq<string>>, i: nat)
    requires AllFour(entries) && i < |entries|
    ensures Joined(Key(entries[i][3], entries[i][1], entries[i][0])) in ClientMap(entries)
  {
    if i < |entries| - 1 {
      EntryAnnounced(entries[..|entries| - 1], i);
    }
  }

  /** The handler polls one namespace only. A request with an entry of another tenant is therefore
      never quiet: that entry is reported as deleted at every tick, whatever the rows are. */
  lemma OtherTenantIsNeverQuiet(entries: seq<seq<string>>, i: nat, tenant: string, db: Db)
    requires AllFour(entries) && i < |entries|
    requires var ns := PolledNamespace(entries, tenant); entries[i][3] != ns && '#' !in entries[i][3] && '#' !in ns
    ensures var ns := PolledNamespace(entries, tenant);
            var s := Joined(Key(entries[i][3], entries[i][1], entries[i][0]));
            && !Quiet(Seen(db), ns, ClientMap(entries))
            && forall server :: IsDigestMap(server, db.rows, ns) ==>
                                  s in Diff(ClientMap(entries), server) && Diff(ClientMap(entries), server)[s] == ""
  {
    var ns, e := PolledNamespace(entries, tenant), entries[i];
    var s := Joined(Key(e[3], e[1], e[0]));
    EntryAnnounced(entries, i);
    forall server | IsDigestMap(server, db.rows, ns) ensures s !in server {
      if s in server {
        var j :| j in db.rows && j.ns == ns && Joined(j) == s;
        SameNamespace(j, Key(e[3], e[1], e[0]));
      }
    }
  }

  lemma SameNamespace(j: Key, k: Key)
    requires '#' !in j.ns && '#' !in k.ns && Joined(j) == Joined(k)
    ensures j.ns == k.ns
  {
    var c, d := j.group + "#" + j.dataId, k.group + "#" + k.dataId;
    assert Joined(j) == j.ns + "#" + c && Joined(k) == k.ns + "#" + d;
    FirstHash(j.ns, c, k.ns, d);
    FirstHash(k.ns, d, j.ns, c);
    assert j.ns == Joined(j)[..|j.ns|] == Joined(k)[..|k.ns|] == k.ns;
  }

  /** A single audible entry reaches the poll as one digest under the row's joined key. */
  lemma OneEntryHeard(e: Entry, tenant: string)
    requires AllSeparatorFree(e) && Audible(e)
    ensures Encode([e]) != "" && Parsed(Encode([e])) == [Fields(e)]
    ensures ClientMap(Parsed(Encode([e]))) == map[Joined(Key(e.tenant, e.group, e.dataId)) := e.md5]
    ensures PolledNamespace(Parsed(Encode([e])), tenant) == e.tenant
  {
    EntriesHeard([e]);
    assert Parsed(Encode([e]))[0] == Heard(e);
    HeardRight(e);
    OneEntryMap(Fields(e), tenant);
    assert Encode([e]) == Body(e) + [ENTRY_END] + Encode([]);
  }

  lemma OneEntryMap(entry: seq<string>, tenant: string)
    requires |entry| >= 4
    ensures ClientMap([entry]) == map[Joined(Key(entry[3], entry[1], entry[0])) := entry[2]]
    ensures PolledNamespace([entry], tenant) == if entry[3] != "" then entry[3] else tenant
  {
    Appended([], entry, tenant);
    assert [] + [entry] == [entry];
  }
}
