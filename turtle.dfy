/**
 * The graph builder: it reads resolved-record lines
 * `Playlist: <playlist> -- <artist> -- <song> --> <identifier>`, turns each
 * accepted line into eight Turtle statements, and renders the statements
 * under a fixed `@prefix` header. The lines come in as a sequence and the
 * document goes out as a string.
 */
module Turtle {
  import opened Text
  import opened Slug

  /** The separator between the fields of a record line. */
  const Sep := " -- "
  /** The separator between the song and the identifier. */
  const Arrow := " --> "
  /** The label the resolver writes in front of the playlist name. */
  const Label := "Playlist: "
  /** The identifier written for a name the knowledge service did not know. */
  const Sentinel := "NON TROVATO"
  const Quote := "\""

  /** The fields extracted from one accepted line. `link` is `None` when the
      song field has no ` --> `. */
  datatype Entry = Entry(playlist: string, artist: string, song: string, link: Option<string>)

  /** The playlist field with every `Playlist: ` found in one left-to-right
      pass removed, then stripped, then without `"`. */
  function PlaylistName(field: string): string {
    Replace(Strip(Replace(field, Label, [])), Quote, [])
  }

  /** The artist or song field stripped and without `"`. */
  function CleanName(field: string): string {
    Replace(Strip(field), Quote, [])
  }

  /** The stripped identifier after the first ` --> ` of the song field, if any. */
  function LinkOf(info: seq<string>): Option<string> {
    if |info| > 1 then Some(Strip(info[1])) else None
  }

  /** One pass of the loop body up to the URIs: `None` for a skipped line. */
  function ParseLine(raw: string): Option<Entry> {
    var line := Strip(raw);
    if line == [] || !Contains(line, Arrow) then None
    else
      var parts := Split(line, Sep);
      if |parts| < 3 then None
      else
        var info := Split(parts[2], Arrow);
        Some(Entry(PlaylistName(parts[0]), CleanName(parts[1]), CleanName(info[0]), LinkOf(info)))
  }

  /** The artist statement carries a `linkedTo` clause: the identifier is
      present, not empty and not the sentinel. */
  predicate Linked(e: Entry) {
    e.link.Some? && e.link.value != [] && e.link.value != Sentinel
  }

  function PlaylistUri(e: Entry): string {
    GenerateUri("Playlist", e.playlist)
  }

  function ArtistUri(e: Entry): string {
    GenerateUri("Artist", e.artist)
  }

  /** The song URI slugs the artist and the title together. */
  function SongUri(e: Entry): string {
    GenerateUri("Song", e.artist + "_" + e.song)
  }

  /** The artist `hasName` statement, with the `linkedTo` clause when linked. */
  function ArtistLine(e: Entry): string {
    "    imkb:hasName \"" + e.artist + "\""
      + if Linked(e) then " ;\n    imkb:linkedTo <" + e.link.value + "> ." else " ."
  }

  /** The eight statements appended for one accepted line, in order. */
  function Statements(e: Entry): (r: seq<string>)
    ensures |r| == 8
  {
    [ PlaylistUri(e) + " a imkb:Playlist ;",
      "    imkb:hasName \"" + e.playlist + "\" .",
      SongUri(e) + " a imkb:Song ;",
      "    imkb:hasTitle \"" + e.song + "\" ;",
      "    imkb:hasArtist " + ArtistUri(e) + " .",
      ArtistUri(e) + " a imkb:Artist ;",
      ArtistLine(e),
      PlaylistUri(e) + " imkb:contains " + SongUri(e) + " ." ]
  }

  /** The entries of the accepted lines, in input order. */
  function Accepted(lines: seq<string>): (r: seq<Entry>)
    ensures |r| <= |lines|
  {
    if lines == [] then []
    else
      var init := Accepted(lines[..|lines| - 1]);
      match ParseLine(lines[|lines| - 1])
      case None => init
      case Some(e) => init + [e]
  }

  /** The statement list after the loop has seen `lines`. */
  function Triples(lines: seq<string>): seq<string> {
    if lines == [] then []
    else
      var init := Triples(lines[..|lines| - 1]);
      match ParseLine(lines[|lines| - 1])
      case None => init
      case Some(e) => init + Statements(e)
  }

  /** The loop over the input lines: each accepted line appends its eight
      statements to `triples`. */
  method Build(lines: seq<string>) returns (triples: seq<string>)
    ensures triples == Triples(lines)
    ensures |triples| == 8 * |Accepted(lines)|
    ensures forall j :: 0 <= j < |Accepted(lines)| ==> triples[8 * j..8 * j + 8] == Statements(Accepted(lines)[j])
  {
    triples := [];
    for i := 0 to |lines|
      invariant triples == Triples(lines[..i])
    {
      TriplesStep(lines, i);
      match ParseLine(lines[i]) {
        case None =>
        case Some(e) =>
          ghost var before := triples;
          var playlistUri := GenerateUri("Playlist", e.playlist);
          var artistUri := GenerateUri("Artist", e.artist);
          var songUri := GenerateUri("Song", e.artist + "_" + e.song);
          var s0, s1, s2, s3 := playlistUri + " a imkb:Playlist ;", "    imkb:hasName \"" + e.playlist + "\" .",
            songUri + " a imkb:Song ;", "    imkb:hasTitle \"" + e.song + "\" ;";
          var s4, s5, s6, s7 := "    imkb:hasArtist " + artistUri + " .", artistUri + " a imkb:Artist ;",
            ArtistLine(e), playlistUri + " imkb:contains " + songUri + " .";
          triples := triples + [s0];
          triples := triples + [s1];
          triples := triples + [s2];
          triples := triples + [s3];
          triples := triples + [s4];
          triples := triples + [s5];
          triples := triples + [s6];
          triples := triples + [s7];
          EightAppends(before, s0, s1, s2, s3, s4, s5, s6, s7);
          assert [s0, s1, s2, s3, s4, s5, s6, s7] == Statements(e);
      }
    }
    assert lines[..|lines|] == lines;
    TriplesBlocks(lines);
  }

  lemma EightAppends<T>(t: seq<T>, s0: T, s1: T, s2: T, s3: T, s4: T, s5: T, s6: T, s7: T)
    ensures t + [s0] + [s1] + [s2] + [s3] + [s4] + [s5] + [s6] + [s7] == t + [s0, s1, s2, s3, s4, s5, s6, s7]
  {
  }

  /** One more line extends the statement list by that line's block, if any. */
  lemma TriplesStep(lines: seq<string>, i: nat)
    requires i < |lines|
    ensures Triples(lines[..i + 1]) == Triples(lines[..i]) + match ParseLine(lines[i]) case None => [] case Some(e) => Statements(e)
  {
    assert lines[..i + 1][..i] == lines[..i];
    assert lines[..i + 1][i] == lines[i];
    AppendEmpty(Triples(lines[..i]));
  }

  /** Each accepted line contributes its block of eight statements, and the
      blocks come in the order of the lines. */
  lemma {:induction false} TriplesBlocks(lines: seq<string>)
    ensures |Triples(lines)| == 8 * |Accepted(lines)|
    ensures forall j :: 0 <= j < |Accepted(lines)| ==> Triples(lines)[8 * j..8 * j + 8] == Statements(Accepted(lines)[j])
  {
    if lines != [] {
      var init := lines[..|lines| - 1];
      TriplesBlocks(init);
      match ParseLine(lines[|lines| - 1]) {
        case None =>
        case Some(e) =>
          BlocksStep(Triples(init), Accepted(init), e);
      }
    }
  }

  lemma BlocksStep(t: seq<string>, a: seq<Entry>, e: Entry)
    requires |t| == 8 * |a|
    requires forall j :: 0 <= j < |a| ==> t[8 * j..8 * j + 8] == Statements(a[j])
    ensures |t + Statements(e)| == 8 * |a + [e]|
    ensures forall j :: 0 <= j < |a + [e]| ==> (t + Statements(e))[8 * j..8 * j + 8] == Statements((a + [e])[j])
  {
    var s := Statements(e);
    forall j | 0 <= j < |a| + 1
      ensures (t + s)[8 * j..8 * j + 8] == Statements((a + [e])[j])
    {
      if j < |a| {
        AppendSlice(t, s, 8 * j, 8 * j + 8);
        assert (a + [e])[j] == a[j];
      } else {
        AppendParts(t, s);
        assert (a + [e])[j] == e;
      }
    }
  }
  /** The statement list of two batches of lines is the first batch's
      followed by the second's: input order is kept and nothing is merged or
      deduplicated. */
  lemma {:induction false} TriplesAppend(a: seq<string>, b: seq<string>)
    ensures Triples(a + b) == Triples(a) + Triples(b)
    ensures Accepted(a + b) == Accepted(a) + Accepted(b)
    decreases |b|
  {
    if b == [] {
      assert a + b == a;
      AppendEmpty(Triples(a));
      AppendEmpty(Accepted(a));
    } else {
      var b' := b[..|b| - 1];
      assert (a + b)[..|a + b| - 1] == a + b';
      assert (a + b)[|a + b| - 1] == b[|b| - 1];
      TriplesAppend(a, b');
      match ParseLine(b[|b| - 1]) {
        case None =>
        case Some(e) =>
          AppendAssoc(Triples(a), Triples(b'), Statements(e));
          AppendAssoc(Accepted(a), Accepted(b'), [e]);
      }
    }
  }

  /** A line adds nothing to the statement list exactly when it is empty
      after stripping, or lacks ` --> `, or has fewer than three ` -- `
      fields; otherwise it adds its eight statements. */
  lemma SkippedLine(lines: seq<string>, raw: string)
    ensures var line := Strip(raw);
      (Triples(lines + [raw]) == Triples(lines))
        <==> (line == [] || !Contains(line, Arrow) || |Split(line, Sep)| < 3)
    ensures ParseLine(raw).Some? ==> |Triples(lines + [raw])| == |Triples(lines)| + 8
  {
    var all := lines + [raw];
    assert all[..|all| - 1] == lines;
    assert all[|all| - 1] == raw;
  }

  /** Names taken from an accepted line contain no `"`. */
  lemma ParsedNamesHaveNoQuotes(raw: string)
    requires ParseLine(raw).Some?
    ensures var e := ParseLine(raw).value;
      '"' !in e.playlist && '"' !in e.artist && '"' !in e.song
  {
    var line := Strip(raw);
    var parts := Split(line, Sep);
    var info := Split(parts[2], Arrow);
    ReplaceDeletesChar(Strip(Replace(parts[0], Label, [])), '"');
    ReplaceDeletesChar(Strip(parts[1]), '"');
    ReplaceDeletesChar(Strip(info[0]), '"');
  }

  /** The artist statement ends in `> .` (a `linkedTo` clause) exactly when
      the entry is linked. A linked statement ends in `<id> .` with the
      entry's own identifier; an unlinked one ends in the artist name and
      `" .`. */
  lemma ArtistLineLinked(e: Entry)
    ensures var l := ArtistLine(e);
      |l| >= 3 && (l[|l| - 3] == '>' <==> Linked(e))
    ensures var l := ArtistLine(e);
      Linked(e) ==> |l| >= |e.link.value| + 4 && l[|l| - |e.link.value| - 4..] == "<" + e.link.value + "> ."
    ensures var l := ArtistLine(e);
      !Linked(e) ==> |l| >= |e.artist| + 3 && l[|l| - |e.artist| - 3..] == e.artist + "\" ."
  {
    var name := "    imkb:hasName \"" + e.artist + "\"";
    if Linked(e) {
      var clause := " ;\n    imkb:linkedTo <" + e.link.value + "> .";
      EndsWith(name, clause, 3);
      EndsWith(" ;\n    imkb:linkedTo <" + e.link.value, "> .", 3);
    } else {
      EndsWith(name, " .", 2);
      EndsWith("    imkb:hasName \"" + e.artist, "\"", 1);
      assert (name + " .")[|name + " ."| - 3] == name[|name| - 1];
    }
  }

  lemma EndsWith<T>(x: seq<T>, y: seq<T>, k: nat)
    requires k <= |y|
    ensures (x + y)[|x + y| - k..] == y[|y| - k..]
  {
  }

  /** The song URI slugs `artist_song`: for artist names with no whitespace at
      either end, two artists whose slugs differ get different song URIs for
      the same title. */
  lemma SongUrisDistinguishArtists(e1: Entry, e2: Entry)
    requires Strip(e1.artist) == e1.artist && Strip(e2.artist) == e2.artist
    requires e1.song == e2.song
    requires Slugify(e1.artist) != Slugify(e2.artist)
    ensures SongUri(e1) != SongUri(e2)
  {
    SlugifyJoinedDistinct(e1.artist, e2.artist, e1.song);
    GenerateUriEqual("Song", e1.artist + "_" + e1.song, "Song", e2.artist + "_" + e2.song);
  }

  /** Artist names that differ only in letter case give the same song URI
      for the same title: the song URI does not tell such artists apart. */
  lemma SongUriIgnoresArtistCase(e1: Entry, e2: Entry)
    requires Lower(e1.artist) == Lower(e2.artist) && e1.song == e2.song
    ensures SongUri(e1) == SongUri(e2)
  {
    LowerAppend(e1.artist + "_", e1.song);
    LowerAppend(e1.artist, "_");
    LowerAppend(e2.artist + "_", e2.song);
    LowerAppend(e2.artist, "_");
    SlugifyIgnoresCase(e1.artist + "_" + e1.song, e2.artist + "_" + e2.song);
  }
  /** The record line the resolver writes for playlist `p`, artist `a`,
      song `t` and identifier `id`:
      `Playlist: <p> -- <a> -- <t> --> <id>`. */
  function RecordLine(p: string, a: string, t: string, id: string): string {
    Join([Label + p, a, t + Arrow + id], Sep)
  }

  /** A field the resolver can write back unchanged: no whitespace at either
      end, no `-` and no `"`. */
  predicate CleanField(x: string) {
    Strip(x) == x && '-' !in x && '"' !in x
  }

  /** Reading back a record line gives the fields it was written from, and
      the artist is linked exactly when the identifier is not the sentinel. */
  lemma ParseRecordLine(p: string, a: string, t: string, id: string)
    requires CleanField(p) && CleanField(a) && CleanField(t)
    requires Find(p, Label) == -1
    requires id != [] && Strip(id) == id && '-' !in id
    ensures ParseLine(RecordLine(p, a, t, id)) == Some(Entry(p, a, t, Some(id)))
    ensures Linked(ParseLine(RecordLine(p, a, t, id)).value) <==> id != Sentinel
  {
    RecordLineStripped(p, a, t, id);
    RecordLineHasArrow(p, a, t, id);
    RecordLineFields(p, a, t, id);
    SongFieldParts(t, id);
    PlaylistFieldName(p);
    CleanFieldName(a);
    CleanFieldName(t);
  }

  lemma RecordLineShape(p: string, a: string, t: string, id: string)
    ensures RecordLine(p, a, t, id) == (Label + p) + Sep + (a + Sep + (t + Arrow + id))
  {
    var z := t + Arrow + id;
    assert [Label + p, a, z][1..] == [a, z];
    assert [a, z][1..] == [z];
    assert Join([z], Sep) == z;
    assert Join([a, z], Sep) == a + Sep + z;
  }

  lemma RecordLineStripped(p: string, a: string, t: string, id: string)
    requires id != [] && Strip(id) == id
    ensures Strip(RecordLine(p, a, t, id)) == RecordLine(p, a, t, id) != []
  {
    var x, y, z := Label + p, a + Sep, t + Arrow + id;
    RecordLineShape(p, a, t, id);
    AppendFront(x, Sep);
    AppendFront(x + Sep, y + z);
    AppendFront(Label, p);
    AppendBack(x + Sep, y + z);
    AppendBack(y, z);
    AppendBack(t + Arrow, id);
    StripFixed(id);
    StripFixed(RecordLine(p, a, t, id));
  }

  lemma RecordLineHasArrow(p: string, a: string, t: string, id: string)
    ensures Contains(RecordLine(p, a, t, id), Arrow)
  {
    var x, y, z := Label + p, a + Sep, t + Arrow + id;
    RecordLineShape(p, a, t, id);
    assert OccursAt(Arrow, Arrow, 0);
    OccursPrefix(t, Arrow, Arrow, 0);
    OccursSuffix(t + Arrow, id, Arrow, |t|);
    OccursPrefix(y, z, Arrow, |t|);
    OccursPrefix(x + Sep, y + z, Arrow, |y| + |t|);
    ContainsIff(RecordLine(p, a, t, id), Arrow);
  }

  lemma RecordLineFields(p: string, a: string, t: string, id: string)
    requires '-' !in p && '-' !in a && '-' !in t && '-' !in id
    ensures Split(RecordLine(p, a, t, id), Sep) == [Label + p, a, t + Arrow + id]
  {
    var parts := [Label + p, a, t + Arrow + id];
    NotInAppend(Label, p, '-');
    NoSeparatorInSongField(t, id);
    SplitJoin(parts, Sep);
  }

  /** ` -- ` does not occur in `<t> --> <id>` when neither part has a `-`. */
  lemma NoSeparatorInSongField(t: string, id: string)
    requires '-' !in t && '-' !in id
    ensures Find(t + Arrow + id, Sep) == -1
  {
    var z := t + Arrow + id;
    forall i | 0 <= i < |z| && i != |t| + 1 && i != |t| + 2
      ensures z[i] != '-'
    {
      if i < |t| {
        assert z[i] == t[i];
      } else if i < |t| + 5 {
        assert z[i] == Arrow[i - |t|];
      } else {
        assert z[i] == id[i - |t| - 5];
      }
    }
    forall k | 0 <= k <= |z|
      ensures !OccursAt(z, Sep, k)
    {
      if k + 4 <= |z| {
        var w := z[k..k + 4];
        assert w[1] == z[k + 1] && w[2] == z[k + 2] && w[3] == z[k + 3];
        if z[k + 1] == '-' && k + 1 == |t| + 1 {
          assert z[k + 3] == '>';
        } else if z[k + 1] == '-' {
          assert z[k + 2] == '>';
        }
      }
    }
  }

  lemma SongFieldParts(t: string, id: string)
    requires '-' !in t && '-' !in id && Strip(id) == id
    ensures Split(t + Arrow + id, Arrow) == [t, id]
    ensures LinkOf(Split(t + Arrow + id, Arrow)) == Some(id)
  {
    assert [t, id][1..] == [id];
    assert Join([t, id], Arrow) == t + Arrow + id;
    FindMissing(id, Arrow, 1);
    SplitJoin([t, id], Arrow);
  }

  lemma PlaylistFieldName(p: string)
    requires CleanField(p) && Find(p, Label) == -1
    ensures PlaylistName(Label + p) == p
  {
    var x := Label + p;
    assert OccursAt(x, Label, 0);
    assert Find(x, Label) == 0;
    ReplaceStep(x, Label, []);
    AppendParts(Label, p);
    ReplaceAbsent(p, Label, []);
    assert Replace(x, Label, []) == p;
    CleanFieldName(p);
  }

  lemma CleanFieldName(x: string)
    requires CleanField(x)
    ensures CleanName(x) == x
  {
    FindAbsent(x, Quote);
    ReplaceAbsent(x, Quote, []);
  }

  /** A line that ends in ` --> ` with no identifier after it is skipped:
      stripping removes the final space, and what is left has no ` --> `. */
  lemma EmptyIdentifierSkipped(x: string)
    requires x != [] && !IsSpace(x[0]) && '>' !in x
    ensures ParseLine(x + Arrow) == None
  {
    var w := x + " -->";
    EmptyIdentifierStripped(x);
    forall k | 0 <= k <= |w|
      ensures !OccursAt(w, Arrow, k)
    {
      if k + 5 <= |w| {
        assert w[k..k + 5][3] == w[k + 3];
        if k + 3 < |x| {
          assert w[k + 3] == x[k + 3];
        } else {
          assert w[k + 3] == " -->"[k + 3 - |x|];
        }
      }
    }
    ContainsIff(w, Arrow);
  }

  lemma EmptyIdentifierStripped(x: string)
    requires x != [] && !IsSpace(x[0])
    ensures Strip(x + Arrow) == x + " -->"
  {
    var w := x + " -->";
    assert x + Arrow == w + " ";
    AppendFront(x, Arrow);
    LeadingSpacesUnique(x + Arrow, 0);
    assert TrimLeft(x + Arrow) == x + Arrow;
    AppendBack(x, " -->");
    TrimRightAppend(w, " ");
    assert TrailingSpaces(" ") == 1;
    AppendEmpty(w);
  }

  /** Removing `Playlist: ` is one left-to-right pass, so a label that the
      removal itself brings together survives: `PlayPlaylist: list: X` names
      the playlist `Playlist: X`. As in `Slug.SlugifyPinkFloyd`, the literal
      is a parameter fixed by `requires` and the helpers below walk the search
      one step at a time, which keeps the solver within its resource limit. */
  lemma PlaylistLabelCanSurvive(field: string)
    requires field == "PlayPlaylist: list: X"
    ensures PlaylistName(field) == "Playlist: X"
    ensures Contains(PlaylistName(field), Label)
  {
    var r := "Playlist: X";
    LabelRemovedOnce(field, r);
    LabelledNameKept(r);
  }

  lemma LabelRemovedOnce(field: string, r: string)
    requires field == "PlayPlaylist: list: X" && r == "Playlist: X"
    ensures Replace(field, Label, []) == r
  {
    var u, v := "Play", "list: X";
    LabelFoundAfterPlay(field);
    ReplaceStep(field, Label, []);
    assert field[..4] == u && field[14..] == v;
    FindAbsent(v, Label);
    ReplaceAbsent(v, Label, []);
    assert u + [] + v == r;
  }

  lemma LabelledNameKept(r: string)
    requires r == "Playlist: X"
    ensures Replace(Strip(r), Quote, []) == r && Contains(r, Label)
  {
    StripFixed(r);
    FindAbsent(r, Quote);
    ReplaceAbsent(r, Quote, []);
    assert r[0..10] == Label;
    assert OccursAt(r, Label, 0);
    ContainsIff(r, Label);
  }

  lemma LabelFoundAfterPlay(field: string)
    requires field == "PlayPlaylist: list: X"
    ensures Find(field, Label) == 4
  {
    assert field[4..14] == Label;
    assert FindFrom(field, Label, 4) == 4;
    assert field[3..13][0] != Label[0];
    assert FindFrom(field, Label, 3) == 4;
    assert field[2..12][0] != Label[0];
    assert FindFrom(field, Label, 2) == 4;
    assert field[1..11][0] != Label[0];
    assert FindFrom(field, Label, 1) == 4;
    assert field[0..10][4] != Label[4];
  }

  const PrefixImkb := "@prefix imkb: <http://example.org/imkb/> ."
  const PrefixWd := "@prefix wd: <http://www.wikidata.org/entity/> ."
  const PrefixRdf := "@prefix rdf: <http://www.w3.org/1999/02/22-rdf-syntax-ns#> ."
  const PrefixRdfs := "@prefix rdfs: <http://www.w3.org/2000/01/rdf-schema#> ."
  const PrefixXsd := "@prefix xsd: <http://www.w3.org/2001/XMLSchema#> ."

  /** The five `@prefix` directives of the header, in order. */
  const PrefixLines: seq<string> := [PrefixImkb, PrefixWd, PrefixRdf, PrefixRdfs, PrefixXsd]

  /** The header as written: each directive ends its line, and the last one
      is followed by an empty line. */
  const Header := PrefixImkb + "\n" + PrefixWd + "\n" + PrefixRdf + "\n" + PrefixRdfs + "\n" + PrefixXsd + "\n\n"

  /** The document: the header, then the statements joined with newlines. */
  function Document(triples: seq<string>): string {
    Header + Join(triples, "\n")
  }

  /** The document is the five directive lines, an empty line and the
      statements, joined with newlines. `HeaderShape` works on the header's
      pieces as parameters rather than on the long literals, which keeps the
      solver within its resource limit. */
  lemma DocumentIsJoin(triples: seq<string>)
    requires triples != []
    ensures Document(triples) == Join(PrefixLines + [""] + triples, "\n")
  {
    JoinedLines(triples);
    TwoNewlines("\n");
    HeaderShape(PrefixImkb, PrefixWd, PrefixRdf, PrefixRdfs, PrefixXsd, "\n", Join(triples, "\n"));
  }

  lemma JoinedLines(triples: seq<string>)
    requires triples != []
    ensures Join(PrefixLines + [""] + triples, "\n")
      == PrefixImkb + "\n" + (PrefixWd + "\n" + (PrefixRdf + "\n" + (PrefixRdfs + "\n"
           + (PrefixXsd + "\n" + ([] + "\n" + Join(triples, "\n"))))))
  {
    var nl := "\n";
    var rest := [""] + triples;
    var l5 := [PrefixXsd] + rest;
    var l4 := [PrefixRdfs] + l5;
    var l3 := [PrefixRdf] + l4;
    var l2 := [PrefixWd] + l3;
    var l1 := [PrefixImkb] + l2;
    assert PrefixLines + [""] + triples == l1;
    JoinCons(PrefixImkb, l2, nl);
    JoinCons(PrefixWd, l3, nl);
    JoinCons(PrefixRdf, l4, nl);
    JoinCons(PrefixRdfs, l5, nl);
    JoinCons(PrefixXsd, rest, nl);
    JoinCons("", triples, nl);
  }

  lemma TwoNewlines(nl: string)
    requires nl == "\n"
    ensures nl + nl == "\n\n"
  {
  }

  lemma HeaderShape(a: string, b: string, c: string, d: string, e: string, nl: string, j: string)
    ensures a + nl + b + nl + c + nl + d + nl + e + (nl + nl) + j
      == a + nl + (b + nl + (c + nl + (d + nl + (e + nl + ([] + nl + j)))))
  {
  }
}
