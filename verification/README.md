# journal-cli front matter, modelled in Dafny

journal-cli keeps each journal entry in a text file. The entry can start
with a YAML front-matter block between two `---` lines. The block has two
fields: `tags`, a sequence of strings, and `readme`, a scalar that
ReadmeParser turns into a readme value plus an expiration date.
`JournalFrontMatter` does four things:

- It reads that block off the head of a file.
- It strips the delimiters.
- It reads `tags` and `readme` out of the loaded YAML document.
- It renders a front-matter value back to text.

This project models those steps as pure functions over immutable values and
proves what each step guarantees.

Modules:

- `Results` (results.dfy): `Option` and `Result`.
- `Text` (text.dfy): the parts of .NET string handling the code relies on:
  - `String.Trim`, with the full `char.IsWhiteSpace` set;
  - `Replace`, which scans left to right without overlaps;
  - `Split(NewLine, RemoveEmptyEntries)`;
  - `string.Join`;
  - the StringBuilder's line-by-line appending;
  - `ToLowerInvariant`.
- `Collections` (collections.dfy): `Enumerable.Distinct`.
- `Yaml` (yaml.dfy): the node tree of a loaded YamlDotNet document, plus these operations:
  - the key list gathered in `AllNodes` order;
  - `FirstOrDefault` on lower-cased keys;
  - the root's key indexer;
  - `ToString` of a scalar node.
- `JournalFrontMatter` (front_matter.dfy): the class itself.
  - Each exception it can let escape is an `Error` value.
  - Its outside collaborators form a `Collaborators` record of functions:
    the YAML loader, the serializer, the ToString of composite nodes, and
    ReadmeParser.
- `FrontMatterProperties` (properties.dfy): lemmas that relate several
  operations. They show that a rendered block reaches the loader intact when
  its body has no `---` line and no blank line, and that a root key wins over
  a nested one. They also show that a rendered
  value reads back, provided the loader reads the rendered text as the
  document that was written. That proviso fails when a tag or the readme
  contains "- ", because rendering rewrites that text too.

Four behaviours of the code worth knowing:

- A block with no closing `---` takes the rest of the file. It does not fail.
- The file name is parsed as a date whenever a block exists, even when the
  block has no `readme` key.
- Every key of every mapping in the document must be a scalar: the key list
  is cast to scalar nodes before any field is looked up, so a sequence or
  mapping used as a key anywhere fails with an invalid cast.
- A document whose root is not a mapping is not rejected up front. When every
  key is a scalar, it gives an empty value when no mapping anywhere has a
  `tags` or `readme` key. Otherwise indexing the root fails.

`tags` and `readme` keys are searched in every mapping of the document,
nested ones included, because `AllNodes` walks the whole tree. Only the root
is then indexed. So a key that appears only in a nested mapping makes the
lookup fail (`NestedOnlyKeyFails`). When every key is a scalar, other keys
are ignored.

## Model

| member | source | states |
|---|---|---|
| Text.TrimUnique | src/JournalCli/Core/JournalFrontMatter.cs:55 | Trim cuts exactly the leading and trailing white space: any cut that removes only white space and leaves non-white ends (or nothing) is Trim's |
| Text.TrimIdempotent | src/JournalCli/Core/JournalFrontMatter.cs:113 | trimming already-trimmed text changes nothing |
| Text.IndentItemsIsInsertion | src/JournalCli/Core/JournalFrontMatter.cs:113 | Replace("- ", "  - ") equals the character-wise reference: two spaces inserted before every "- " of the serializer text |
| Text.IndentItemsUnchangedIff | src/JournalCli/Core/JournalFrontMatter.cs:113 | the rewrite leaves the text unchanged if and only if it contains no "- " |
| Text.IndentReachesItemText | src/JournalCli/Core/JournalFrontMatter.cs:113 | a tag whose own text contains "- " is rewritten as well, not just the item marker |
| Text.SplitLinesOfJoin | src/JournalCli/Core/JournalFrontMatter.cs:56-67 | joining non-empty lines with NewLine and splitting again without empty entries gives the same lines back |
| Text.JoinOfPieces | src/JournalCli/Core/JournalFrontMatter.cs:56-67 | splitting at every NewLine and joining with NewLine is the identity |
| Text.AppendLinesIsJoin | src/JournalCli/Core/JournalFrontMatter.cs:26-35 | appending each line followed by NewLine builds the lines joined by NewLine, plus one final NewLine |
| Text.LowerMatchesAnyCase | src/JournalCli/Core/JournalFrontMatter.cs:81-82 | a key lower-cases to an ASCII lower-case word if and only if each of its characters is that word's letter in either case |
| Collections.Distinct | src/JournalCli/Core/JournalFrontMatter.cs:87 | the result has no repeats and holds exactly the elements of the input |
| Collections.DistinctKeepsFirstOccurrenceOrder | src/JournalCli/Core/JournalFrontMatter.cs:87 | Distinct lists the elements in the order of their first occurrence in the input |
| Collections.DistinctIdempotent | src/JournalCli/Core/JournalFrontMatter.cs:48 | deduplicating a deduplicated list changes nothing |
| Yaml.RootKeysFirst | src/JournalCli/Core/JournalFrontMatter.cs:74-79 | the key list gathered from every mapping of the document starts with the root mapping's own keys, in order, so a root key is found before any key of a nested mapping |
| Yaml.FirstNamed | src/JournalCli/Core/JournalFrontMatter.cs:81-82 | the position of the first key that lower-cases to the name; no earlier key does |
| Yaml.FindKey | src/JournalCli/Core/JournalFrontMatter.cs:81-82 | no key is found if and only if no key lower-cases to the name; a found key is the first key of the list that lower-cases to the name |
| Yaml.Lookup | src/JournalCli/Core/JournalFrontMatter.cs:86 | indexing succeeds if and only if the node is a mapping with an entry under the key, and then yields the value of an entry under that key; a node that is not a mapping fails with NotAMapping, and a mapping without the key fails with KeyNotFound |
| Yaml.LookupFirstNamed | src/JournalCli/Core/JournalFrontMatter.cs:86 | indexing the root by its first key with a given name yields that entry's value |
| JournalFrontMatter.FromValues | src/JournalCli/Core/JournalFrontMatter.cs:46-50 | the tags are kept without repeats and with the same elements, the readme as given, and there is no readme date |
| JournalFrontMatter.Extract | src/JournalCli/Core/JournalFrontMatter.cs:22-35 | there is no block if and only if the file is empty or its first line is not "---"; otherwise the block is the lines from the opening delimiter through the next one, or to the end of the file |
| JournalFrontMatter.BlockUnique | src/JournalCli/Core/JournalFrontMatter.cs:28-35 | any line prefix that opens with "---", has no "---" inside, and ends at a "---" or at the end of the file is the extracted block |
| JournalFrontMatter.UnterminatedBlockTakesAll | src/JournalCli/Core/JournalFrontMatter.cs:28-35 | with no closing "---" the block runs to the end of the file |
| JournalFrontMatter.ReadBlock | src/JournalCli/Core/JournalFrontMatter.cs:19-36 | the reading loop returns no text exactly when there is no block, reads only the first line then, and otherwise reads exactly the block's lines and builds them joined with NewLine endings |
| JournalFrontMatter.StripDelimiters | src/JournalCli/Core/JournalFrontMatter.cs:55-67 | stripping fails with an index error if and only if the trimmed text has no non-empty line, or only a single "---"; text with no delimiter line at either end comes out trimmed and otherwise unchanged; text with a delimiter line at either end comes out as the remaining lines joined by NewLine, so its blank lines are dropped |
| JournalFrontMatter.StripLines | src/JournalCli/Core/JournalFrontMatter.cs:59-64 | dropping the delimiter lines fails with an index error if and only if there is no line or only a single "---"; otherwise the result is the list less its first line exactly when that line is "---", and less its last line exactly when that line is "---" |
| JournalFrontMatter.StripRemovesAtMostOneEach | src/JournalCli/Core/JournalFrontMatter.cs:59-64 | the lines of the stripped text are the trimmed block's lines less the first exactly when it is "---", and less the last exactly when it is "---" |
| JournalFrontMatter.StripWrapped | src/JournalCli/Core/JournalFrontMatter.cs:55-67 | a text wrapped in delimiter lines comes back with only its blank lines dropped, even when it holds "---" lines of its own |
| JournalFrontMatter.Field | src/JournalCli/Core/JournalFrontMatter.cs:81-86 | a field is absent if and only if no key in any mapping of the document lower-cases to its name; when such a key exists but the root is not a mapping, indexing the root fails with NotAMapping |
| JournalFrontMatter.TagList | src/JournalCli/Core/JournalFrontMatter.cs:84-88 | a tags value that is not a sequence is an invalid cast; a sequence gives its items' texts without repeats and with no element lost |
| JournalFrontMatter.ResolveReadme | src/JournalCli/Core/JournalFrontMatter.cs:90-96 | no readme value gives no readme; a value that is not a scalar is an invalid cast; a scalar is handed to ReadmeParser with the entry date: an acceptance yields exactly the parser's reading, and a refusal is passed on |
| JournalFrontMatter.Interpret | src/JournalCli/Core/JournalFrontMatter.cs:74-96 | a non-scalar key is an invalid cast; a tags or readme field that cannot be indexed passes on its index failure; a tags value that is not a sequence, or a readme value that is not a scalar, is an invalid cast; a ReadmeParser refusal is passed on; on success, tags are present if and only if a tags key exists, and readme and readme date if and only if a readme key exists; tags are the sequence's texts without repeats; readme and date are ReadmeParser's reading of the scalar |
| JournalFrontMatter.InterpretSucceeds | src/JournalCli/Core/JournalFrontMatter.cs:74-96 | reading a document succeeds if and only if every key is a scalar, both fields can be indexed, tags is absent or a sequence, and readme is absent or a scalar that ReadmeParser accepts |
| JournalFrontMatter.LoadAndInterpret | src/JournalCli/Core/JournalFrontMatter.cs:69-74 | a loader refusal is passed on; a text with no document is an index error; otherwise the first document is read |
| JournalFrontMatter.Parse | src/JournalCli/Core/JournalFrontMatter.cs:53-98 | the string constructor fails with an index error when stripping does; otherwise it loads and reads the stripped text |
| JournalFrontMatter.FromFilePath | src/JournalCli/Core/JournalFrontMatter.cs:17-42 | a file that does not open with "---" gives the empty value; a block with an unparseable file-name date fails; otherwise the block's text goes to the string constructor with that date |
| JournalFrontMatter.Render | src/JournalCli/Core/JournalFrontMatter.cs:110-115 | the unwrapped rendering is trimmed; the wrapped one is "---", NewLine, a trimmed body, NewLine, "---" |
| JournalFrontMatter.Show | src/JournalCli/Core/JournalFrontMatter.cs:117 | ToString() is trimmed and is exactly the body that ToString(true) wraps |
| FrontMatterProperties.RenderBodyIsIndentedSerializerText | src/JournalCli/Core/JournalFrontMatter.cs:112-113 | the rendered body is the trimmed serializer text with two spaces before every "- " |
| FrontMatterProperties.RenderIgnoresReadmeDate | src/JournalCli/Core/JournalFrontMatter.cs:107-114 | the readme date never affects the rendering |
| FrontMatterProperties.RenderedBlockReachesLoader | src/JournalCli/Core/JournalFrontMatter.cs:17-42 | a file that opens with a rendered block, with no "---" line in its body, yields exactly that block whatever follows, and the loader receives the rendered body less its blank lines |
| FrontMatterProperties.RenderedBodyReachesLoaderIntact | src/JournalCli/Core/JournalFrontMatter.cs:53-74 | with no blank line in the rendered body, the loader receives exactly ToString() |
| FrontMatterProperties.RootKeyWins | src/JournalCli/Core/JournalFrontMatter.cs:74-86 | the first root key with the name decides the field, whatever nested mappings hold |
| FrontMatterProperties.NestedOnlyKeyFails | src/JournalCli/Core/JournalFrontMatter.cs:74-86 | a name found only in a nested mapping makes indexing the root fail with KeyNotFound |
| FrontMatterProperties.TagsKeySpellings | src/JournalCli/Core/JournalFrontMatter.cs:81 | "tags", "Tags" and "TAGS" name the tags field, and "tag" does not |
| FrontMatterProperties.InterpretDocument | src/JournalCli/Core/JournalFrontMatter.cs:74-96 | reading the mapping with a `tags` entry when a value has tags and a `readme` entry when it has a readme gives tags with the same elements and no repeats, and the readme ReadmeParser makes of the written one |
| FrontMatterProperties.ReadBackRendered | src/JournalCli/Core/JournalFrontMatter.cs:17-115 | a file that opens with a rendered value reads back as the interpretation of the written document, provided the loader reads the rendered body as that document; this proviso cannot hold for a faithful loader when a tag or the readme contains "- " |

## Left out

- YamlDotNet is outside the model. Loading text into documents, serializing a
  value, and the ToString of sequence and mapping nodes are all parameters
  (`Collaborators.load`, `Collaborators.serialize`, `Collaborators.show`).
  The operations assume nothing about them beyond their types. Only
  `ReadBackRendered` states a hypothesis about the loader.
- ReadmeParser is outside the model. It is the `Collaborators.readmeParser`
  parameter: it returns the readme value and expiration date, or a refusal.
- `DateTime.Parse` of the file name is outside the model. The parsed date is
  an input; `None` stands for a name that does not parse.
- File-system access is outside the model: `IFileSystem`, opening the file,
  `ReadLine`, `EndOfStream`, and disposing the reader. The file is the
  sequence of lines `ReadLine` would return.
- `Environment.NewLine` is fixed to `"\n"`. Windows line endings are not
  modelled.
- Text.ToLowerInvariant: only ASCII letters are lower-cased. Every comparison
  the code makes is with "tags" or "readme". The only non-ASCII characters
  whose invariant lower case is ASCII are U+0130 (to 'i') and U+212A (to
  'k'), and neither letter occurs in those words. So key matching is exact.
- Features that live inside the loader are not modelled: duplicate mapping
  keys, anchors, aliases and YAML tags. Duplicate keys are refused by the
  loader. `Lookup` takes the first equal key.
- `BlockIndicator` is a mutable public static field in the class. It is
  modelled as the constant `Delimiter`.
- JournalFrontMatter.Render: does not model the exact serializer layout.
  Its contract states only the trimming and the delimiter wrapping. The body
  is characterised relative to the serializer's text by
  `RenderBodyIsIndentedSerializerText`.
- FrontMatterProperties.ReadBackRendered: its hypothesis is that the loader
  reads the rendered body as the written document. Rendering puts two spaces
  before every "- ", also inside a tag or the readme (`IndentReachesItemText`).
  So a tag such as `a- b` is written as `a  - b`, and a faithful loader reads
  it back changed. For such values the round trip is lossy, and the lemma's
  hypothesis does not hold.
- JournalFrontMatter.FromValues: a null tags argument makes `Distinct` throw
  `ArgumentNullException`, and null tag elements are possible in the code.
  The model's tags argument is a sequence of strings, so it has neither.
  A null readme is modelled as `None`.
- The other files of the program are not part of this model: the cmdlets,
  the encrypted store, the cmdlet base class and the `IJournalFrontMatter`
  interface.
