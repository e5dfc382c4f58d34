# imkb graph builder in Dafny

This project models the graph builder of the imkb music knowledge base
(`turtle.py`). The resolver (`integrazione nome-uri.py:129-132`) writes one
record line per track:

    Playlist: <playlist> -- <artist> -- <song> --> <identifier>

where the identifier is a knowledge-base URI, or `NON TROVATO` when the
artist was not found. The builder reads these lines and does three things:

- It strips each line and skips it when it is empty, when it lacks ` --> `,
  or when it has fewer than three ` -- ` fields.
- For every other line it extracts the playlist, artist, song and optional
  identifier, then appends eight Turtle statements in a fixed order.
- It writes a five-line `@prefix` header and an empty line, followed by the
  statements joined with newlines.

URIs are `imkb:<Type>_<slug>`, where `slugify` does four steps:

1. strip the name;
2. lowercase it;
3. delete every character that is not a word character, whitespace or `-`;
4. replace each run of whitespace and `-` with one `_`.

The model has three modules:

- `Text` (`text.dfy`): the Python string operations the builder uses, over
  `seq<char>`:
  - `str.strip`, `str.lower` and `in` (`Strip`, `Lower`, `Contains`);
  - `str.split(sep)`, `sep.join` and `str.replace` (`Split`, `Join`,
    `Replace`);
  - the character classes of `\s` and `\w` (`IsSpace`, `IsWordChar`).

  Their Python semantics are kept: `split` and `replace` cut at
  non-overlapping occurrences found left to right, and `replace` does not
  rescan text it has produced.
- `Slug` (`slug.dfy`): `slugify` and `generate_uri`.
- `Turtle` (`turtle.dfy`):
  - `ParseLine`, one pass of the loop body up to the URIs;
  - `Statements`, the eight statements of an accepted line;
  - `Triples` and `Accepted`, which specify the loop;
  - `Build`, the loop itself as a method that appends the eight statements
    one at a time;
  - `Document`, the rendered file.

The input is a sequence of lines (each may still end in its newline) and the
output is a string. All functions are pure, so the same lines always give the
same document.

Removing `Playlist: ` from the playlist field is one left-to-right pass of
`str.replace`, so the removal can create a new label. The field
`PlayPlaylist: list: X` becomes the playlist name `Playlist: X`
(`Turtle.PlaylistLabelCanSurvive`). The model keeps this behaviour.

## Model

| member | source | states |
|---|---|---|
| Text.Strip | turtle.py:21 | `str.strip()` never lengthens the text; its shape is stated by `StripShape` and `StripFixed` |
| Text.Lower | turtle.py:5 | `lower()` maps each character to its ASCII lowercase and keeps the length |
| Text.StripShape | turtle.py:21 | the stripped text has no whitespace at either end and is the slice of the input between leading and trailing whitespace |
| Text.StripFixed | turtle.py:21 | stripping leaves a text unchanged exactly when it is empty or starts and ends with a non-space |
| Text.StripLower | turtle.py:5 | stripping and lowercasing commute |
| Text.FindFrom | turtle.py:26 | the result is the first occurrence of the pattern at or after `from`, or -1 when there is none |
| Text.Split | turtle.py:27 | `split(sep)` gives at least one piece and no piece contains `sep` |
| Text.Join | turtle.py:64 | no contract of its own: `sep.join`; stated by `JoinSplit`, `SplitJoin` and `DocumentIsJoin` |
| Text.JoinSplit | turtle.py:27 | `sep.join(s.split(sep)) == s` |
| Text.SplitJoin | turtle.py:27 | splitting the join of pieces in which `sep` cannot start gives back the pieces |
| Text.Replace | turtle.py:32-35 | no contract of its own: one left-to-right `str.replace` pass; stated by `ReplaceIsJoinOfSplit`, `ReplaceDeletesChar`, `ReplaceAbsent` and `PlaylistLabelCanSurvive` |
| Text.ReplaceIsJoinOfSplit | turtle.py:32 | `s.replace(pat, r) == r.join(s.split(pat))` |
| Text.ReplaceDeletesChar | turtle.py:33 | `s.replace('"', '')` leaves no `"` |
| Text.ReplaceAbsent | turtle.py:32 | a text without the pattern is left unchanged |
| Slug.DeleteDisallowed | turtle.py:5 | `re.sub(r'[^\w\s-]', '', s)` never lengthens the text; what it keeps is stated by `DeleteDisallowedKeeps`, `DeleteDisallowedFixed` and `DeleteDisallowedAppend` |
| Slug.DeleteDisallowedKeeps | turtle.py:5 | after the deletion only word characters, whitespace and `-` are left, and no capital is added |
| Slug.DeleteDisallowedFixed | turtle.py:5 | the deletion leaves word-or-separator text unchanged and removes text made only of disallowed characters entirely |
| Slug.DeleteDisallowedAppend | turtle.py:5 | the deletion works piecewise on a concatenation |
| Slug.CollapseSeparators | turtle.py:6 | `re.sub(r'[-\s]+', '_', s)` never lengthens the text; what it produces is stated by `CollapseSeparatorsKeeps`, `CollapseSeparatorsFixed`, `CollapseAppend` and `CollapseRun` |
| Slug.CollapseSeparatorsKeeps | turtle.py:6 | after collapsing no whitespace or `-` is left; word characters and `_` are all that remain of word-or-separator text |
| Slug.CollapseSeparatorsFixed | turtle.py:6 | collapsing leaves text without whitespace or `-` unchanged |
| Slug.CollapseAppend | turtle.py:6 | collapsing works piecewise when no run of separators straddles the cut |
| Slug.CollapseRun | turtle.py:6 | any run of whitespace and `-` between two other characters becomes exactly one `_` |
| Slug.Slugify | turtle.py:3-6 | every character of a slug is a lowercase ASCII letter, a digit or `_` |
| Slug.SlugifyIdempotent | turtle.py:3-6 | `slugify(slugify(x)) == slugify(x)` |
| Slug.SlugifyIgnoresCase | turtle.py:5 | names with the same lowercase form have the same slug |
| Slug.SlugifyTwoWords | turtle.py:5-6 | two words joined by any run of separators and followed by punctuation slug to the lowercase words joined by one `_` |
| Slug.SlugifyPinkFloyd | turtle.py:5-6 | `"Pink   Floyd!!"` and `"pink-floyd"` both slug to `"pink_floyd"` |
| Slug.GenerateUri | turtle.py:9-10 | no contract of its own: `imkb:<type>_<slug>`; stated by `GenerateUriEqual`, `SongUrisDistinguishArtists` and `SongUriIgnoresArtistCase` |
| Slug.GenerateUriEqual | turtle.py:9-10 | for types without `_`, two URIs are equal exactly when the types are equal and the slugs are equal |
| Slug.SlugifyJoined | turtle.py:41 | for an artist name with no whitespace at either end, the slug of `artist + "_" + song` is the artist's slug, `_`, and a part that depends on the song alone |
| Slug.SlugifyJoinedDistinct | turtle.py:41 | different artist slugs stay different after the same song is joined to both |
| Turtle.ParseLine | turtle.py:21-36 | no contract of its own: one pass of the loop body up to the URIs; stated by `SkippedLine`, `ParseRecordLine`, `ParsedNamesHaveNoQuotes`, `EmptyIdentifierSkipped` and `PlaylistLabelCanSurvive` |
| Turtle.ArtistLine | turtle.py:52-53 | no contract of its own: the artist `hasName` statement; stated by `ArtistLineLinked` |
| Turtle.Statements | turtle.py:44-55 | an accepted line gives exactly eight statements |
| Turtle.Accepted | turtle.py:20-36 | there are never more accepted entries than input lines; which lines are accepted is stated by `SkippedLine`, `TriplesBlocks` and `TriplesAppend` |
| Turtle.Triples | turtle.py:20-55 | no contract of its own: the statement list the loop builds; stated by `TriplesBlocks`, `TriplesAppend`, `SkippedLine` and `Build` |
| Turtle.Build | turtle.py:20-55 | the loop's list is `Triples(lines)`, eight statements per accepted line, block `j` being the statements of the `j`-th accepted line |
| Turtle.TriplesBlocks | turtle.py:44-55 | the statement list is the blocks of eight of the accepted lines, in input order |
| Turtle.TriplesAppend | turtle.py:20 | the list for two batches of lines is the first batch's list followed by the second's, with nothing merged |
| Turtle.SkippedLine | turtle.py:21-29 | a line adds nothing exactly when it is empty after strip, lacks ` --> `, or has fewer than three ` -- ` fields; otherwise it adds eight statements |
| Turtle.ParsedNamesHaveNoQuotes | turtle.py:32-35 | the playlist, artist and song names of an accepted line contain no `"` |
| Turtle.ArtistLineLinked | turtle.py:52-53 | the artist `hasName` statement ends in `> .` exactly when the identifier is present, non-empty and not `NON TROVATO`; a linked statement ends in `<id> .` with the entry's own identifier, an unlinked one ends in the artist name and `" .` |
| Turtle.SongUrisDistinguishArtists | turtle.py:39-41 | the same title by artists with different slugs gives different song URIs |
| Turtle.SongUriIgnoresArtistCase | turtle.py:41 | the same title by artist names that differ only in case gives the same song URI |
| Turtle.ParseRecordLine | turtle.py:21-36 | a record line written from clean fields parses back to those fields and identifier, and is linked exactly when the identifier is not `NON TROVATO` |
| Turtle.EmptyIdentifierSkipped | turtle.py:21-26 | a line ending in ` --> ` with no identifier is skipped, because strip removes its last space |
| Turtle.PlaylistLabelCanSurvive | turtle.py:32 | `PlayPlaylist: list: X` gives the playlist name `Playlist: X`, which still contains the label |
| Turtle.Document | turtle.py:58-64 | no contract of its own: the `@prefix` header (the constant `Header`) followed by the joined statements; stated by `DocumentIsJoin` |
| Turtle.DocumentIsJoin | turtle.py:59-64 | the document is the five `@prefix` lines, an empty line and the statements, joined with newlines |

## Left out

- Unicode: `\w`, `\s`, `strip()` and `lower()` are modelled on ASCII only. A
  non-ASCII character is treated as neither a word character nor whitespace,
  so `slugify` deletes it, while Python would keep a non-ASCII letter.
- File reading (turtle.py:16-17), file writing (turtle.py:58) and the final
  `print` (turtle.py:66) are not modelled. `Build` takes the lines and
  `Document` returns the text that would be written.
- Turtle escaping of quotes and backslashes inside literals is not modelled,
  because the source does not do it; the output is not claimed to be
  well-formed Turtle.
- queries.py, the resolver and the batch processor (including the
  knowledge-service queries) are not part of this model.
- SongUrisDistinguishArtists: the source does not state a condition. The
  lemma needs artist names with no whitespace at either end (quote removal
  can expose some) and different slugs. Artists whose names slug alike share
  song URIs (`SongUriIgnoresArtistCase`).
- ParseRecordLine: stated for fields without `-` or `"` and without
  whitespace at either end, a playlist name without `Playlist: `, and an
  identifier without `-` or surrounding whitespace. Outside these
  conditions a ` -- ` inside a field shifts the split.
- Statements: its own contract gives only the count. The end of the artist
  statement (the `linkedTo` clause with its identifier, or the closing `" .`)
  is stated by `ArtistLineLinked`; the other seven statements are fixed
  templates that no lemma restates.
- DocumentIsJoin: stated for at least one statement. With none,
  `"\n".join([])` is empty and the document is the header alone.
- That the whole document splits back on newlines into the header lines,
  the empty line and the statements is not proved. It needs the five long
  literal header lines to contain no newline, and the solver cannot settle
  that within the resource limit. The `linkedTo` statement also spans two
  lines.
