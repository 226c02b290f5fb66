/**
 Reading a manifest of downloads (parseManifest) and adding up what was downloaded
 (DownloadFiles).
 */
module Manifest {
  import opened Wrappers
  import opened Promise

  // ---- lines ----

  /** unicode.IsSpace. */
  predicate IsSpace(c: char) {
    || '\t' <= c <= '\r' || c == ' ' || c == '\U{0085}' || c == '\U{00A0}' || c == '\U{1680}'
    || '\U{2000}' <= c <= '\U{200A}' || c == '\U{2028}' || c == '\U{2029}' || c == '\U{202F}'
    || c == '\U{205F}' || c == '\U{3000}'
  }

  /** strings.Fields; `word` is the field read so far. */
  function FieldsFrom(s: string, word: string): seq<string> {
    if s == [] then (if word == [] then [] else [word])
    else if IsSpace(s[0]) then (if word == [] then [] else [word]) + FieldsFrom(s[1..], [])
    else FieldsFrom(s[1..], word + [s[0]])
  }

  function Fields(s: string): seq<string> {
    FieldsFrom(s, [])
  }

  datatype Entry = Entry(url: string, dest: string)

  /** A line without fields is blank, one with two is an entry, any other is malformed. */
  datatype Line = Blank | Malformed | Item(entry: Entry)

  function ParseLine(line: string): Line {
    var fields := Fields(line);
    if fields == [] then Blank
    else if |fields| != 2 then Malformed
    else Item(Entry(fields[0], fields[1]))
  }

  // ---- what a line holds ----

  ghost predicate All(s: string, space: bool) {
    forall i :: 0 <= i < |s| ==> IsSpace(s[i]) == space
  }

  ghost predicate Spaces(s: string) {
    All(s, true)
  }

  ghost predicate Word(s: string) {
    s != [] && All(s, false)
  }

  /** A line laid out from words with gaps around them. */
  function Lay(gaps: seq<string>, words: seq<string>): string
    requires |gaps| == |words| + 1
  {
    if words == [] then gaps[0] else gaps[0] + words[0] + Lay(gaps[1..], words[1..])
  }

  /** The gaps are spaces, and between two words there is at least one. */
  ghost predicate Layout(gaps: seq<string>, words: seq<string>) {
    && |gaps| == |words| + 1
    && (forall i :: 0 <= i < |gaps| ==> Spaces(gaps[i]))
    && (forall i :: 0 < i < |words| ==> gaps[i] != [])
    && (forall i :: 0 <= i < |words| ==> Word(words[i]))
  }

  lemma {:induction false} FieldsGap(gap: string, s: string)
    requires Spaces(gap)
    ensures Fields(gap + s) == Fields(s)
    decreases |gap|
  {
    if gap == [] {
      assert gap + s == s;
    } else {
      assert (gap + s)[1..] == gap[1..] + s;
      FieldsGap(gap[1..], s);
    }
  }

  lemma {:induction false} FieldsWord(read: string, word: string, s: string)
    requires All(word, false)
    ensures FieldsFrom(word + s, read) == FieldsFrom(s, read + word)
    decreases |word|
  {
    if word == [] {
      assert word + s == s && read + word == read;
    } else {
      assert (word + s)[1..] == word[1..] + s;
      FieldsWord(read + [word[0]], word[1..], s);
      assert read + [word[0]] + word[1..] == read + word;
    }
  }

  /** A word ends at a space or at the end of the line. */
  lemma {:induction false} FieldsNext(word: string, s: string)
    requires Word(word) && (s == [] || IsSpace(s[0]))
    ensures Fields(word + s) == [word] + Fields(s)
  {
    FieldsWord([], word, s);
    assert [] + word == word;
  }

  lemma {:induction false} LayoutTail(gaps: seq<string>, words: seq<string>)
    requires Layout(gaps, words) && words != []
    ensures Layout(gaps[1..], words[1..])
    ensures var rest := Lay(gaps[1..], words[1..]); rest == [] || IsSpace(rest[0])
  {
    assert forall i :: 0 < i < |words| ==> words[1..][i - 1] == words[i];
    assert gaps[1] == gaps[1..][0];
  }

  /** Whatever the gaps, the fields of a line are its words. */
  lemma {:induction false} FieldsOfLine(gaps: seq<string>, words: seq<string>)
    requires Layout(gaps, words)
    ensures Fields(Lay(gaps, words)) == words
    decreases |words|
  {
    if words == [] {
      FieldsGap(gaps[0], []);
      assert gaps[0] + [] == gaps[0];
    } else {
      var rest := Lay(gaps[1..], words[1..]);
      LayoutTail(gaps, words);
      FieldsOfLine(gaps[1..], words[1..]);
      assert gaps[0] + words[0] + rest == gaps[0] + (words[0] + rest);
      FieldsGap(gaps[0], words[0] + rest);
      FieldsNext(words[0], rest);
    }
  }

  /** The first stretch of a text, of spaces or of none. */
  lemma {:induction false} Lead(s: string, space: bool) returns (lead: string, rest: string)
    ensures s == lead + rest && All(lead, space)
    ensures rest == [] || IsSpace(rest[0]) != space
    ensures lead == [] ==> rest == s
    decreases |s|
  {
    if s == [] || IsSpace(s[0]) != space {
      lead, rest := [], s;
    } else {
      lead, rest := Lead(s[1..], space);
      lead := [s[0]] + lead;
      assert s == [s[0]] + s[1..];
    }
  }

  /** The first word of a text, with the spaces before it and what follows. */
  lemma FirstWord(s: string) returns (gap: string, word: string, rest: string)
    ensures s == gap + (word + rest) && Spaces(gap)
    ensures if word == [] then rest == [] else Word(word) && (rest == [] || IsSpace(rest[0]))
    ensures word != [] ==> |rest| < |s|
  {
    var text;
    gap, text := Lead(s, true);
    word, rest := Lead(text, false);
  }

  /** Every line is laid out from its fields. */
  lemma {:induction false} LineOfFields(s: string) returns (gaps: seq<string>)
    ensures Layout(gaps, Fields(s)) && Lay(gaps, Fields(s)) == s
    decreases |s|
  {
    var gap, word, rest := FirstWord(s);
    FieldsGap(gap, word + rest);
    if word == [] {
      gaps := [gap];
      assert gap + (word + rest) == gap;
    } else {
      FieldsNext(word, rest);
      var more := LineOfFields(rest);
      gaps := [gap] + more;
      LayoutHead(gap, word, more, Fields(rest));
      assert gap + word + rest == s;
    }
  }

  lemma {:induction false} LayoutHead(gap: string, word: string, gaps: seq<string>, words: seq<string>)
    requires Spaces(gap) && Word(word) && Layout(gaps, words)
    requires var rest := Lay(gaps, words); rest == [] || IsSpace(rest[0])
    ensures Layout([gap] + gaps, [word] + words)
    ensures Lay([gap] + gaps, [word] + words) == gap + word + Lay(gaps, words)
  {
    assert ([gap] + gaps)[1..] == gaps && ([word] + words)[1..] == words;
    if words != [] && gaps[0] == [] {
      assert Lay(gaps, words)[0] == words[0][0];
    }
  }

  /** A line with a URL and a destination, whatever the spaces around and between them. */
  lemma LineOfEntry(lead: string, url: string, gap: string, dest: string, trail: string)
    requires Spaces(lead) && Word(url) && Spaces(gap) && gap != [] && Word(dest) && Spaces(trail)
    ensures ParseLine(lead + url + gap + dest + trail) == Item(Entry(url, dest))
  {
    var gaps, words := [lead, gap, trail], [url, dest];
    FieldsOfLine(gaps, words);
    LayTwo(gaps, words);
  }

  /** A line is laid out from so many words. */
  ghost predicate HasWords(line: string, n: nat) {
    exists gaps, words :: Layout(gaps, words) && Lay(gaps, words) == line && |words| == n
  }

  /** Every line has so many words and no other number of them: it is blank exactly when it has none,
      that is, when all its characters are spaces, an entry exactly when it has two, and malformed
      otherwise. */
  lemma LineKind(line: string)
    ensures exists n: nat :: HasWords(line, n)
    ensures forall n: nat :: HasWords(line, n) ==>
              && (ParseLine(line).Blank? <==> n == 0)
              && (ParseLine(line).Item? <==> n == 2)
              && (ParseLine(line).Malformed? <==> n == 1 || n > 2)
    ensures ParseLine(line).Blank? <==> Spaces(line)
  {
    var gaps := LineOfFields(line);
    assert HasWords(line, |Fields(line)|);
    forall n: nat | HasWords(line, n)
      ensures n == |Fields(line)|
    {
      var gaps, words :| Layout(gaps, words) && Lay(gaps, words) == line && |words| == n;
      FieldsOfLine(gaps, words);
    }
    if Spaces(line) {
      FieldsGap(line, []);
      assert line + [] == line;
    }
  }

  // ---- the entries ----

  function ParseLines(lines: seq<string>): seq<Line> {
    seq(|lines|, i requires 0 <= i < |lines| => ParseLine(lines[i]))
  }

  /** The entries of the lines, in order. */
  function Items(lines: seq<Line>): seq<Entry> {
    if lines == [] then [] else WithLine(Items(lines[..|lines| - 1]), lines[|lines| - 1])
  }

  /** The entries after one more line. */
  function WithLine(items: seq<Entry>, line: Line): seq<Entry> {
    if line.Item? then items + [line.entry] else items
  }

  /** The entries of two parts are those of the first, then those of the second. */
  lemma {:induction false} ItemsJoin(a: seq<Line>, b: seq<Line>)
    ensures Items(a + b) == Items(a) + Items(b)
    decreases |b|
  {
    if b == [] {
      assert a + b == a;
    } else {
      var n := |b| - 1;
      assert (a + b)[..|a| + n] == a + b[..n];
      ItemsJoin(a, b[..n]);
    }
  }

  /** A line that says an entry, with any spaces around and between its parts. */
  ghost predicate Says(line: string, e: Entry) {
    exists lead, gap, trail ::
      && Spaces(lead) && Spaces(gap) && gap != [] && Spaces(trail)
      && Word(e.url) && Word(e.dest)
      && line == lead + e.url + gap + e.dest + trail
  }

  lemma SaysIff(line: string, e: Entry)
    ensures Says(line, e) <==> ParseLine(line) == Item(e)
  {
    if Says(line, e) {
      var lead, gap, trail :|
        && Spaces(lead) && Spaces(gap) && gap != [] && Spaces(trail)
        && Word(e.url) && Word(e.dest)
        && line == lead + e.url + gap + e.dest + trail;
      LineOfEntry(lead, e.url, gap, e.dest, trail);
    }
    if ParseLine(line) == Item(e) {
      var gaps := LineOfFields(line);
      var words := Fields(line);
      assert words == [e.url, e.dest] && Word(words[0]) && Word(words[1]);
      LayTwo(gaps, words);
    }
  }

  lemma {:induction false} LayTwo(gaps: seq<string>, words: seq<string>)
    requires |gaps| == 3 && |words| == 2
    ensures Lay(gaps, words) == gaps[0] + words[0] + gaps[1] + words[1] + gaps[2]
  {
    assert Lay(gaps[2..], words[2..]) == gaps[2];
    assert gaps[1..][1..] == gaps[2..] && words[1..][1..] == words[2..];
    assert Lay(gaps[1..], words[1..]) == gaps[1] + words[1] + gaps[2];
  }

  /** What is written is read: lines that say entries hold those entries in order. */
  lemma {:induction false} ManifestRoundTrip(lines: seq<string>, entries: seq<Entry>)
    requires |lines| == |entries| && forall i :: 0 <= i < |lines| ==> Says(lines[i], entries[i])
    ensures Items(ParseLines(lines)) == entries
    decreases |lines|
  {
    if lines != [] {
      var n := |lines| - 1;
      ManifestRoundTrip(lines[..n], entries[..n]);
      SaysIff(lines[n], entries[n]);
      assert ParseLines(lines)[..n] == ParseLines(lines[..n]);
      assert entries == entries[..n] + [entries[n]];
    }
  }

  /** Blank lines make no difference. */
  lemma {:induction false} BlankLine(a: seq<Line>, b: seq<Line>)
    ensures Items(a + [Blank] + b) == Items(a + b)
  {
    ItemsJoin(a + [Blank], b);
    ItemsJoin(a, [Blank]);
    ItemsJoin(a, b);
    assert Items([Blank]) == WithLine(Items([Blank][..0]), Blank);
  }

  // ---- the manifest ----

  function FirstFor(items: seq<Entry>): (m: seq<Entry>) {
    if items == [] then []
    else
      var e, before := items[|items| - 1], items[..|items| - 1];
      FirstFor(before) + if HasDest(before, e.dest) then [] else [e]
  }

  predicate HasDest(items: seq<Entry>, dest: string) {
    exists i :: 0 <= i < |items| && items[i].dest == dest
  }

  ghost predicate SameUrls(items: seq<Entry>) {
    forall i, j :: 0 <= i < j < |items| && items[i].dest == items[j].dest ==> items[i].url == items[j].url
  }

  ghost predicate DistinctDests(m: seq<Entry>) {
    forall i, j :: 0 <= i < j < |m| ==> m[i].dest != m[j].dest
  }

  /** The first-occurrence manifest has every destination once, takes only entries that were
      listed, and drops none. */
  lemma {:induction false} FirstForFacts(items: seq<Entry>)
    ensures DistinctDests(FirstFor(items))
    ensures forall k :: 0 <= k < |FirstFor(items)| ==> FirstFor(items)[k] in items
    ensures forall dest :: HasDest(items, dest) <==> HasDest(FirstFor(items), dest)
    decreases |items|
  {
    if items != [] {
      var n := |items| - 1;
      var e, before := items[n], items[..n];
      FirstForFacts(before);
      var m, m0 := FirstFor(items), FirstFor(before);
      assert items == before + [e];
      assert m == if HasDest(before, e.dest) then m0 else m0 + [e];
      forall dest
        ensures HasDest(items, dest) <==> HasDest(m, dest)
      {
        HasDestAppend(before, e, dest);
        HasDestAppend(m0, e, dest);
      }
      forall k | 0 <= k < |m|
        ensures m[k] in items
      {
        if k < |m0| {
          assert m[k] == m0[k];
        }
      }
      assert HasDest(before, e.dest) || !HasDest(m0, e.dest);
    }
  }

  /** Where a destination is listed first. */
  ghost function FirstIndex(items: seq<Entry>, dest: string): (r: nat)
    requires HasDest(items, dest)
    ensures r < |items| && items[r].dest == dest
    ensures forall i :: 0 <= i < r ==> items[i].dest != dest
  {
    var before := items[..|items| - 1];
    if HasDest(before, dest) then FirstIndex(before, dest) else |items| - 1
  }

  lemma {:induction false} FirstIndexUnique(items: seq<Entry>, dest: string, r: nat)
    requires r < |items| && items[r].dest == dest
    requires forall i :: 0 <= i < r ==> items[i].dest != dest
    ensures HasDest(items, dest) && FirstIndex(items, dest) == r
  {
    assert HasDest(items, dest);
    var q := FirstIndex(items, dest);
    assert !(q < r) && !(r < q);
  }

  /** The manifest holds the first entry listed for each destination, in the order in which the
      destinations are first listed. */
  lemma {:induction false} FirstForOrder(items: seq<Entry>, k: nat)
    requires k < |FirstFor(items)|
    ensures HasDest(items, FirstFor(items)[k].dest)
    ensures FirstFor(items)[k] == items[FirstIndex(items, FirstFor(items)[k].dest)]
    ensures forall l :: 0 <= l < k ==>
              && HasDest(items, FirstFor(items)[l].dest)
              && FirstIndex(items, FirstFor(items)[l].dest) < FirstIndex(items, FirstFor(items)[k].dest)
    decreases |items|
  {
    var n := |items| - 1;
    var e, before := items[n], items[..n];
    var m, m0 := FirstFor(items), FirstFor(before);
    assert m == if HasDest(before, e.dest) then m0 else m0 + [e];
    forall l | 0 <= l < |m0|
      ensures m[l] == m0[l] && HasDest(before, m0[l].dest)
      ensures HasDest(items, m0[l].dest) && FirstIndex(items, m0[l].dest) == FirstIndex(before, m0[l].dest)
    {
      FirstForOrder(before, l);
      var r := FirstIndex(before, m0[l].dest);
      assert items[r] == before[r];
      FirstIndexUnique(items, m0[l].dest, r);
    }
    if k < |m0| {
      FirstForOrder(before, k);
    } else {
      FirstIndexUnique(items, e.dest, n);
    }
  }

  lemma HasDestAppend(items: seq<Entry>, e: Entry, dest: string)
    ensures HasDest(items + [e], dest) <==> HasDest(items, dest) || e.dest == dest
  {
    if HasDest(items, dest) {
      var i :| 0 <= i < |items| && items[i].dest == dest;
      assert (items + [e])[i].dest == dest;
    }
    if e.dest == dest {
      assert (items + [e])[|items|].dest == dest;
    }
  }

  /** The map from destinations to URLs holds exactly the entries seen. */
  ghost predicate Seen(seen: map<string, string>, items: seq<Entry>) {
    && (forall i :: 0 <= i < |items| ==> items[i].dest in seen && seen[items[i].dest] == items[i].url)
    && (forall dest :: dest in seen ==> HasDest(items, dest))
  }

  /** What every line has to satisfy on its own. */
  ghost predicate GoodLine(line: Line, validUrl: string -> bool) {
    !line.Malformed? && (line.Item? ==> validUrl(line.entry.url))
  }

  ghost predicate GoodLines(lines: seq<Line>, validUrl: string -> bool) {
    forall i :: 0 <= i < |lines| ==> GoodLine(lines[i], validUrl)
  }

  ghost predicate AllFree(items: seq<Entry>, free: string -> bool) {
    forall i :: 0 <= i < |items| ==> free(items[i].dest)
  }

  /** The state of the parsing loop after the given entries. */
  ghost predicate Parsed(nullConsumer: bool, seen: map<string, string>, manifest: seq<Entry>, items: seq<Entry>,
                         free: string -> bool)
  {
    if nullConsumer then manifest == items
    else SameUrls(items) && AllFree(items, free) && Seen(seen, items) && manifest == FirstFor(items)
  }

  /** One entry of the loop: the null consumer takes it as it is; otherwise an entry seen before
      is skipped, a destination with another URL or one that exists is an error. */
  method AddItem(nullConsumer: bool, seen: map<string, string>, manifest: seq<Entry>, e: Entry,
                 free: string -> bool, ghost items: seq<Entry>)
    returns (seen': map<string, string>, manifest': seq<Entry>, err: Error)
    requires Parsed(nullConsumer, seen, manifest, items, free)
    ensures err == NoError ==> Parsed(nullConsumer, seen', manifest', items + [e], free)
    ensures err != NoError ==> !nullConsumer && !(SameUrls(items + [e]) && AllFree(items + [e], free))
  {
    seen', manifest', err := seen, manifest, NoError;
    assert (items + [e])[..|items|] == items && (items + [e])[|items|] == e;
    if !nullConsumer {
      DestCheck(items, e, seen);
      if e.dest in seen {
        if seen[e.dest] != e.url {
          err := Failure("duplicate destination with different urls");
        }
        return;
      }
      seen' := seen[e.dest := e.url];
      if !free(e.dest) {
        err := Failure("destination already exists");
        return;
      }
    }
    manifest' := manifest + [e];
  }

  /** One line of the loop. */
  method AddLine(nullConsumer: bool, seen: map<string, string>, manifest: seq<Entry>, line: Line,
                 validUrl: string -> bool, free: string -> bool, ghost items: seq<Entry>)
    returns (seen': map<string, string>, manifest': seq<Entry>, err: Error)
    requires Parsed(nullConsumer, seen, manifest, items, free)
    ensures err == NoError ==> GoodLine(line, validUrl)
    ensures err == NoError ==> Parsed(nullConsumer, seen', manifest', WithLine(items, line), free)
    ensures err != NoError ==>
              || !GoodLine(line, validUrl)
              || (!nullConsumer && !(SameUrls(WithLine(items, line)) && AllFree(WithLine(items, line), free)))
  {
    seen', manifest', err := seen, manifest, NoError;
    match line
    case Blank =>
    case Malformed =>
      err := Failure("error parsing manifest invalid line format");
    case Item(e) =>
      if !validUrl(e.url) {
        err := Failure("invalid URL");
      } else {
        seen', manifest', err := AddItem(nullConsumer, seen, manifest, e, free, items);
      }
  }

  /** parseManifest. validUrl is net/url's verdict, free says that a destination does not exist
      yet or may be overwritten. It succeeds exactly when every line is well formed and, unless
      the consumer is the null one, no destination has two URLs and all are free; it then
      yields the entries in order, each destination once. */
  method ParseManifest(lines: seq<string>, nullConsumer: bool, validUrl: string -> bool, free: string -> bool)
    returns (manifest: seq<Entry>, err: Error)
    ensures err == NoError <==> Accepts(nullConsumer, ParseLines(lines), validUrl, free)
    ensures err == NoError ==>
              var items := Items(ParseLines(lines));
              manifest == if nullConsumer then items else FirstFor(items)
  {
    ghost var ls := ParseLines(lines);
    var seenDestinations: map<string, string> := map[];
    manifest := [];
    var i := 0;
    while i < |lines|
      invariant 0 <= i <= |lines| == |ls|
      invariant GoodLines(ls[..i], validUrl)
      invariant Parsed(nullConsumer, seenDestinations, manifest, Items(ls[..i]), free)
    {
      LinesNext(ls, i, validUrl);
      seenDestinations, manifest, err :=
        AddLine(nullConsumer, seenDestinations, manifest, ParseLine(lines[i]), validUrl, free, Items(ls[..i]));
      if err != NoError {
        LineRejected(nullConsumer, ls, i, validUrl, free);
        return;
      }
      i := i + 1;
    }
    assert ls[..i] == ls;
    err := NoError;
  }

  /** The manifest is well formed: every line is and, unless the consumer is the null one, no
      destination has two URLs and every destination is free. */
  ghost predicate Accepts(nullConsumer: bool, lines: seq<Line>, validUrl: string -> bool, free: string -> bool) {
    && GoodLines(lines, validUrl)
    && (nullConsumer || (SameUrls(Items(lines)) && AllFree(Items(lines), free)))
  }

  lemma LinesNext(lines: seq<Line>, i: nat, validUrl: string -> bool)
    requires i < |lines|
    ensures Items(lines[..i + 1]) == WithLine(Items(lines[..i]), lines[i])
    ensures GoodLines(lines[..i + 1], validUrl) <==> GoodLines(lines[..i], validUrl) && GoodLine(lines[i], validUrl)
  {
    assert lines[..i + 1] == lines[..i] + [lines[i]];
    assert lines[..i + 1][..i] == lines[..i];
  }

  lemma LineRejected(nullConsumer: bool, lines: seq<Line>, i: nat, validUrl: string -> bool, free: string -> bool)
    requires i < |lines|
    requires !GoodLine(lines[i], validUrl) ||
             (!nullConsumer && !(SameUrls(Items(lines[..i + 1])) && AllFree(Items(lines[..i + 1]), free)))
    ensures !Accepts(nullConsumer, lines, validUrl, free)
  {
    ItemsPrefix(lines, i + 1);
    ChecksPrefix(Items(lines[..i + 1]), Items(lines), free);
  }

  lemma {:induction false} ItemsPrefix(lines: seq<Line>, k: nat)
    requires k <= |lines|
    ensures Items(lines[..k]) <= Items(lines)
    decreases |lines|
  {
    if k == |lines| {
      assert lines[..k] == lines;
    } else {
      var n := |lines| - 1;
      ItemsPrefix(lines[..n], k);
      assert lines[..n][..k] == lines[..k];
    }
  }

  lemma ChecksPrefix(some: seq<Entry>, all: seq<Entry>, free: string -> bool)
    requires some <= all
    ensures SameUrls(all) && AllFree(all, free) ==> SameUrls(some) && AllFree(some, free)
  {
    assert forall i :: 0 <= i < |some| ==> some[i] == all[i];
  }

  /** A new entry keeps the checks true exactly when its destination is new or has its URL. */
  lemma DestCheck(items: seq<Entry>, e: Entry, seen: map<string, string>)
    requires SameUrls(items) && Seen(seen, items)
    ensures e.dest in seen <==> HasDest(items, e.dest)
    ensures e.dest in seen && seen[e.dest] != e.url ==> !SameUrls(items + [e])
    ensures e.dest in seen && seen[e.dest] == e.url ==> SameUrls(items + [e]) && Seen(seen, items + [e])
    ensures e.dest !in seen ==> SameUrls(items + [e]) && Seen(seen[e.dest := e.url], items + [e])
  {
    forall dest
      ensures HasDest(items + [e], dest) <==> HasDest(items, dest) || e.dest == dest
    {
      HasDestAppend(items, e, dest);
    }
    if e.dest in seen {
      var k :| 0 <= k < |items| && items[k].dest == e.dest;
      assert (items + [e])[k] == items[k] && (items + [e])[|items|] == e;
    }
  }

  // ---- adding up ----

  function Sum(xs: seq<nat>): nat {
    if xs == [] then 0 else Sum(xs[..|xs| - 1]) + xs[|xs| - 1]
  }

  lemma {:induction false} SumSplit(xs: seq<nat>, i: nat)
    requires i < |xs|
    ensures Sum(xs) == Sum(xs[..i] + xs[i + 1..]) + xs[i]
    decreases |xs|
  {
    var n := |xs| - 1;
    if i == n {
      assert xs[..i] + xs[i + 1..] == xs[..n];
    } else {
      SumSplit(xs[..n], i);
      var rest := xs[..i] + xs[i + 1..];
      assert rest[..|rest| - 1] == xs[..n][..i] + xs[..n][i + 1..];
      assert rest[|rest| - 1] == xs[n];
    }
  }

  /** The sum of nothing is zero, of one size that size, and of two parts the sum of theirs. */
  lemma {:induction false} SumJoin(xs: seq<nat>, ys: seq<nat>, x: nat)
    ensures Sum([]) == 0 && Sum([x]) == x
    ensures Sum(xs + ys) == Sum(xs) + Sum(ys)
    decreases |ys|
  {
    assert [x][..0] == [];
    if ys == [] {
      assert xs + ys == xs;
    } else {
      var n := |ys| - 1;
      assert (xs + ys)[..|xs| + n] == xs + ys[..n];
      SumJoin(xs, ys[..n], x);
    }
  }

  /** The sum does not depend on the order. */
  lemma {:induction false} SumOrderFree(xs: seq<nat>, ys: seq<nat>)
    requires multiset(xs) == multiset(ys)
    ensures Sum(xs) == Sum(ys)
    decreases |xs|
  {
    if xs == [] {
      assert |multiset(ys)| == 0;
    } else {
      var n := |xs| - 1;
      assert xs == xs[..n] + [xs[n]];
      assert xs[n] in multiset(ys);
      var i :| 0 <= i < |ys| && ys[i] == xs[n];
      var rest := ys[..i] + ys[i + 1..];
      assert ys == ys[..i] + [ys[i]] + ys[i + 1..];
      assert multiset(rest) == multiset(ys) - multiset{ys[i]};
      assert multiset(xs[..n]) == multiset(xs) - multiset{xs[n]};
      SumSplit(ys, i);
      SumOrderFree(xs[..n], rest);
    }
  }

  /** How one file of the manifest ended: its size, or None if its download failed. */
  type Result = Option<nat>

  function Sizes(results: seq<Result>): seq<nat>
    requires forall i :: 0 <= i < |results| ==> results[i].Some?
  {
    seq(|results|, i requires 0 <= i < |results| => results[i].value)
  }

  /** DownloadFiles: the files finish in any order and add their size to the shared total. The
      call succeeds exactly when all do, with the total of the manifest. */
  method DownloadFiles(results: seq<Result>, finished: seq<Result>) returns (total: nat, err: Error)
    requires multiset(finished) == multiset(results)
    ensures err == NoError <==> forall i :: 0 <= i < |results| ==> results[i].Some?
    ensures err == NoError ==> total == Sum(Sizes(results))
    ensures err != NoError ==> total == 0
  {
    total := 0;
    var failed := false;
    var i := 0;
    while i < |finished|
      invariant 0 <= i <= |finished|
      invariant failed <==> exists j :: 0 <= j < i && finished[j].None?
      invariant !failed ==> total == Sum(Sizes(finished[..i]))
    {
      if finished[i].None? {
        failed := true;
      } else {
        total := total + finished[i].value;
        if !failed {
          var a, b := Sizes(finished[..i + 1]), Sizes(finished[..i]);
          assert a[..i] == b;
        }
      }
      i := i + 1;
    }
    AllOrNone(results, finished);
    if failed {
      return 0, Failure("error downloading files");
    }
    assert finished[..i] == finished;
    SizesOrderFree(finished, results);
    err := NoError;
  }

  lemma AllOrNone(a: seq<Result>, b: seq<Result>)
    requires multiset(a) == multiset(b)
    ensures (forall i :: 0 <= i < |a| ==> a[i].Some?) <==> (forall i :: 0 <= i < |b| ==> b[i].Some?)
  {
    assert (exists i :: 0 <= i < |a| && a[i].None?) <==> None in multiset(a) by {
      assert None in a <==> None in multiset(a);
    }
    assert (exists i :: 0 <= i < |b| && b[i].None?) <==> None in multiset(b) by {
      assert None in b <==> None in multiset(b);
    }
  }

  lemma {:induction false} SizesOrderFree(a: seq<Result>, b: seq<Result>)
    requires multiset(a) == multiset(b)
    requires forall i :: 0 <= i < |a| ==> a[i].Some?
    ensures forall i :: 0 <= i < |b| ==> b[i].Some?
    ensures Sum(Sizes(a)) == Sum(Sizes(b))
  {
    AllOrNone(a, b);
    SizesMultiset(a, b);
    SumOrderFree(Sizes(a), Sizes(b));
  }

  lemma {:induction false} SizesMultiset(a: seq<Result>, b: seq<Result>)
    requires multiset(a) == multiset(b)
    requires (forall i :: 0 <= i < |a| ==> a[i].Some?) && (forall i :: 0 <= i < |b| ==> b[i].Some?)
    ensures multiset(Sizes(a)) == multiset(Sizes(b))
  {
    forall x: nat
      ensures multiset(Sizes(a))[x] == multiset(Sizes(b))[x]
    {
      SizesCount(a, x);
      SizesCount(b, x);
    }
  }

  lemma {:induction false} SizesCount(a: seq<Result>, x: nat)
    requires forall i :: 0 <= i < |a| ==> a[i].Some?
    ensures multiset(Sizes(a))[x] == multiset(a)[Some(x)]
    decreases |a|
  {
    if a != [] {
      var n := |a| - 1;
      SizesCount(a[..n], x);
      assert a == a[..n] + [a[n]];
      assert Sizes(a) == Sizes(a[..n]) + [a[n].value];
    }
  }
}
