/** JournalFrontMatter: the YAML block at the head of a journal entry file.
    Reading the block off the file's lines, stripping its "---" delimiters,
    reading the `tags` and `readme` fields out of the loaded document, building
    a value directly from tags and a readme, and rendering a value as text. */
module JournalFrontMatter {
  import opened Results
  import opened Text
  import opened Collections
  import opened Yaml

  /** BlockIndicator: the line that opens and closes the block. */
  const Delimiter: string := "---"

  /** A NodaTime LocalDate. */
  datatype Date = Date(year: int, month: int, day: int)

  /** What ReadmeParser computes from a raw readme value and the entry's date. */
  datatype Readme = Readme(frontMatterValue: string, expirationDate: Date)

  /** The front matter of one entry. An absent field is None: Tags and Readme
      are null references then, and ReadmeDate keeps its default value. */
  datatype FrontMatter = FrontMatter(
    tags: Option<seq<string>>,
    readme: Option<string>,
    readmeDate: Option<Date>)

  /** The exceptions the code lets escape, by cause. */
  datatype Error =
    | IndexOutOfRange            // an index into an empty line list or document list
    | InvalidCast                // a key, the tags value or the readme value has the wrong node kind
    | IndexFailed(fault: IndexFault)  // the root node cannot be indexed by the key that was found
    | YamlRejected(message: string)   // YamlStream.Load refused the text
    | ReadmeRejected(message: string) // ReadmeParser refused the readme value
    | DateUnparseable            // the file name does not parse as a date

  /** The code's collaborators, which lie outside this model. */
  datatype Collaborators = Collaborators(
    /** YamlStream.Load: the root node of each document in the text. */
    load: string -> Result<seq<Node>, string>,
    /** new ReadmeParser(value, entryDate). */
    readmeParser: (string, Date) -> Result<Readme, string>,
    /** YamlNode.ToString for sequence and mapping nodes. */
    show: Node -> string,
    /** Serializer.Serialize: sees Tags and Readme; ReadmeDate is [YamlIgnore]. */
    serialize: (Option<seq<string>>, Option<string>) -> string)

  // ---------------------------------------------------------------------------
  // Constructors
  // ---------------------------------------------------------------------------

  /** The parameterless constructor: no tags list at all, no readme. */
  const Empty: FrontMatter := FrontMatter(None, None, None)

  /** JournalFrontMatter(tags, readme): the tags without repeats, the readme as given. */
  function FromValues(tags: seq<string>, readme: Option<string>): (fm: FrontMatter)
    ensures fm.tags.Some?
    ensures NoDuplicates(fm.tags.value) && SameElements(fm.tags.value, tags)
    ensures fm.readme == readme
    ensures fm.readmeDate.None?
  {
    FrontMatter(Some(Distinct(tags)), readme, None)
  }

  // ---------------------------------------------------------------------------
  // Block extraction (FromFilePath)
  // ---------------------------------------------------------------------------

  /** What the file's first lines hold. */
  datatype Extraction = NoFrontMatter | Block(lines: seq<string>)

  /** b is the block at the head of lines: it opens with the delimiter, is read
      off the front of the file, has no delimiter strictly inside it, and stops
      at a closing delimiter or at the end of the file. */
  predicate IsBlockOf(b: seq<string>, lines: seq<string>) {
    && 1 <= |b| <= |lines|
    && b == lines[..|b|]
    && b[0] == Delimiter
    && (forall k :: 1 <= k < |b| - 1 ==> b[k] != Delimiter)
    && (|b| == |lines| || (|b| >= 2 && b[|b| - 1] == Delimiter))
  }

  /** The lines up to and including the first delimiter, or all of them. */
  function ThroughDelimiter(rest: seq<string>): (r: seq<string>)
    ensures |r| <= |rest| && r == rest[..|r|]
    ensures forall k :: 0 <= k < |r| - 1 ==> r[k] != Delimiter
    ensures |r| == |rest| || (|r| > 0 && r[|r| - 1] == Delimiter)
  {
    if |rest| == 0 then []
    else if rest[0] == Delimiter then [rest[0]]
    else [rest[0]] + ThroughDelimiter(rest[1..])
  }

  /** The line scan of FromFilePath: no block unless the first line is the
      delimiter; otherwise the lines through the next delimiter, or through the
      end of the file when no delimiter closes the block. */
  function Extract(lines: seq<string>): (r: Extraction)
    ensures r.NoFrontMatter? <==> |lines| == 0 || lines[0] != Delimiter
    ensures r.Block? ==> IsBlockOf(r.lines, lines)
  {
    if |lines| == 0 || lines[0] != Delimiter then NoFrontMatter
    else
      var t := ThroughDelimiter(lines[1..]);
      assert forall k :: 1 <= k <= |t| ==> ([lines[0]] + t)[k] == t[k - 1] == lines[k];
      Block([lines[0]] + t)
  }

  /** The block is determined by the lines: whatever satisfies IsBlockOf is
      what Extract returns. */
  lemma BlockUnique(lines: seq<string>, b: seq<string>)
    requires IsBlockOf(b, lines)
    ensures Extract(lines) == Block(b)
  {
  }

  /** An unterminated block takes the rest of the file. */
  lemma UnterminatedBlockTakesAll(lines: seq<string>)
    requires |lines| > 0 && lines[0] == Delimiter
    requires forall k :: 1 <= k < |lines| ==> lines[k] != Delimiter
    ensures Extract(lines) == Block(lines)
  {
    BlockUnique(lines, lines);
  }

  /** The file reading loop of FromFilePath over the lines ReadLine returns:
      the text the StringBuilder holds, if any, and how many lines were read. */
  method ReadBlock(lines: seq<string>) returns (yaml: Option<string>, read: nat)
    ensures read <= |lines|
    ensures (|lines| == 0 || lines[0] != Delimiter) ==> yaml.None? && read == (if |lines| == 0 then 0 else 1)
    ensures yaml.None? <==> Extract(lines).NoFrontMatter?
    ensures yaml.Some? ==> Extract(lines) == Block(lines[..read])
    ensures yaml.Some? ==> yaml.value == AppendLines(lines[..read])
  {
    if |lines| == 0 {
      return None, 0;
    }
    var firstLine := lines[0];
    if firstLine != Delimiter {
      return None, 1;
    }
    var sb := firstLine + NewLine;
    read := 1;
    assert lines[..1] == [firstLine];
    while read < |lines|
      invariant 1 <= read <= |lines|
      invariant forall k :: 1 <= k < read ==> lines[k] != Delimiter
      invariant sb == AppendLines(lines[..read])
    {
      var next := lines[read];
      assert lines[..read + 1][..read] == lines[..read];
      sb := sb + next + NewLine;
      read := read + 1;
      if next == Delimiter {
        break;
      }
    }
    BlockUnique(lines, lines[..read]);
    yaml := Some(sb);
  }

  // ---------------------------------------------------------------------------
  // Delimiter stripping (the string constructor, first half)
  // ---------------------------------------------------------------------------

  /** out is ls less its first line exactly when that line is a delimiter,
      and less its last line exactly when that line is a delimiter. */
  predicate DropsDelimiterEnds(ls: seq<string>, out: seq<string>)
    requires |ls| > 0
  {
    exists i, j :: 0 <= i <= 1 && |ls| - 1 <= j <= |ls| && i <= j
      && out == ls[i..j]
      && (i == 1 <==> ls[0] == Delimiter)
      && (j == |ls| - 1 <==> ls[|ls| - 1] == Delimiter)
  }

  /** The line list once RemoveAt has dropped a leading and then a trailing
      delimiter line; indexing an empty list fails. */
  function StripLines(ls: seq<string>): (r: Result<seq<string>, Error>)
    ensures r.Err? <==> |ls| == 0 || (|ls| == 1 && ls[0] == Delimiter)
    ensures r.Err? ==> r.error == IndexOutOfRange
    ensures r.Ok? ==> DropsDelimiterEnds(ls, r.value)
    ensures r.Ok? && ls[0] != Delimiter && ls[|ls| - 1] != Delimiter ==> r.value == ls
  {
    if |ls| == 0 then Err(IndexOutOfRange)
    else
      var i := if ls[0] == Delimiter then 1 else 0;
      if i == |ls| then Err(IndexOutOfRange)
      else
        var j := if ls[|ls| - 1] == Delimiter then |ls| - 1 else |ls|;
        Ok(ls[i..j])
  }

  /** Trim, split into non-empty lines, drop one leading and one trailing
      delimiter line, and re-join only if a line was dropped. */
  function StripDelimiters(yaml: string): (r: Result<string, Error>)
    ensures var ls := SplitLines(Trim(yaml));
            r.Err? <==> |ls| == 0 || (|ls| == 1 && ls[0] == Delimiter)
    ensures r.Err? ==> r.error == IndexOutOfRange
    ensures var ls := SplitLines(Trim(yaml));
            r.Ok? && ls[0] != Delimiter && ls[|ls| - 1] != Delimiter ==> r.value == Trim(yaml)
    ensures var ls := SplitLines(Trim(yaml));
            r.Ok? && (ls[0] == Delimiter || ls[|ls| - 1] == Delimiter) ==>
              r.value == JoinLines(StripLines(ls).value)
  {
    var trimmed := Trim(yaml);
    var lines := SplitLines(trimmed);
    var body :- StripLines(lines);
    Ok(if |body| != |lines| then JoinLines(body) else trimmed)
  }

  /** The lines the stripped text splits into are the lines StripLines keeps. */
  lemma StrippedTextLines(yaml: string)
    requires StripDelimiters(yaml).Ok?
    ensures SplitLines(StripDelimiters(yaml).value) == StripLines(SplitLines(Trim(yaml))).value
  {
    var ls := SplitLines(Trim(yaml));
    var body := StripLines(ls).value;
    if |body| != |ls| {
      var i := if ls[0] == Delimiter then 1 else 0;
      var j := if ls[|ls| - 1] == Delimiter then |ls| - 1 else |ls|;
      assert body == ls[i..j];
      SplitLinesOfJoinedRun(Trim(yaml), i, j);
    }
  }

  /** Stripping removes at most one delimiter line at each end and nothing
      else: the lines of the result are the trimmed block's lines less the
      first exactly when it is a delimiter, and less the last exactly when it
      is one. */
  lemma StripRemovesAtMostOneEach(yaml: string)
    requires StripDelimiters(yaml).Ok?
    ensures DropsDelimiterEnds(SplitLines(Trim(yaml)), SplitLines(StripDelimiters(yaml).value))
  {
    StrippedTextLines(yaml);
  }

  /** y between delimiter lines, as ToString(true) lays it out. */
  function Wrap(y: string): string {
    Delimiter + NewLine + y + NewLine + Delimiter
  }

  /** The wrapped text opens with a delimiter line, closes with one, and
      holds y exactly in between. */
  lemma WrapShape(y: string)
    ensures var w := Wrap(y);
            && |w| == |y| + 8
            && w[..4] == Delimiter + NewLine
            && w[|w| - 4..] == NewLine + Delimiter
            && w[4..|w| - 4] == y
  {
    var w := Wrap(y);
    assert w == (Delimiter + NewLine) + y + (NewLine + Delimiter);
  }

  lemma TrimWrapped(y: string)
    ensures Trim(Wrap(y) + NewLine) == Wrap(y)
  {
    assert Trimmed(Wrap(y));
    assert WhiteSpaceBetween(NewLine, 0, 1);
    TrimDropsTrailing(Wrap(y), NewLine);
  }

  /** Splitting a wrapped text at every NewLine gives the delimiter lines
      around the pieces of y. */
  lemma PiecesOfWrap(y: string)
    ensures Pieces(Wrap(y)) == [Delimiter] + Pieces(y) + [Delimiter]
  {
    var t := y + NewLine + Delimiter;
    assert Wrap(y) == Delimiter + NewLine + t;
    PiecesOfLine(Delimiter);
    PiecesOfConcat(y, Delimiter);
    assert Pieces(t) == Pieces(y) + [Delimiter];
    PiecesOfConcat(Delimiter, t);
  }

  lemma SplitWrapped(y: string)
    ensures SplitLines(Wrap(y)) == [Delimiter] + SplitLines(y) + [Delimiter]
  {
    PiecesOfWrap(y);
    RemoveEmptyAround(Delimiter, Pieces(y), Delimiter);
  }

  /** A block wrapped in delimiters comes back with its blank lines dropped
      and nothing else changed, whatever it contains, including delimiter
      lines of its own. */
  lemma StripWrapped(y: string)
    ensures StripDelimiters(Wrap(y) + NewLine) == Ok(JoinLines(SplitLines(y)))
  {
    TrimWrapped(y);
    SplitWrapped(y);
    var ls := SplitLines(Wrap(y));
    assert ls[1..][..|ls| - 2] == SplitLines(y);
  }

  // ---------------------------------------------------------------------------
  // Field interpretation (the string constructor, second half)
  // ---------------------------------------------------------------------------

  /** Every key of every mapping in the document is a scalar: the cast of the
      key list to YamlScalarNode succeeds. */
  predicate KeysAreScalars(root: Node) {
    forall k :: k in AllKeys(root) ==> k.Scalar?
  }

  /** The document has a key that lower-cases to name, in any of its mappings. */
  predicate HasKeyNamed(root: Node, name: string) {
    exists j :: 0 <= j < |AllKeys(root)| && KeyNamed(AllKeys(root)[j], name)
  }

  /** RootNode[key] for the first key, among all mappings, that lower-cases to
      name; no value when there is no such key. */
  function Field(root: Node, name: string): (r: Result<Option<Node>, Error>)
    ensures r == Ok(None) <==> !HasKeyNamed(root, name)
    ensures !root.Mapping? && HasKeyNamed(root, name) ==> r == Err(IndexFailed(NotAMapping))
  {
    match FindKey(AllKeys(root), name)
    case None => Ok(None)
    case Some(k) =>
      match Lookup(root, k)
      case Ok(v) => Ok(Some(v))
      case Err(f) => Err(IndexFailed(f))
  }

  /** The tags list: the sequence's items as text, without repeats. */
  function TagList(field: Option<Node>, show: Node -> string): (r: Result<Option<seq<string>>, Error>)
    ensures field.None? ==> r == Ok(None)
    ensures field.Some? && !field.value.Sequence? ==> r == Err(InvalidCast)
    ensures field.Some? && field.value.Sequence? ==>
              r.Ok? && r.value.Some?
              && NoDuplicates(r.value.value)
              && SameElements(r.value.value, Texts(field.value.items, show))
  {
    match field
    case None => Ok(None)
    case Some(Sequence(items)) => Ok(Some(Distinct(Texts(items, show))))
    case Some(_) => Err(InvalidCast)
  }

  /** The readme: a scalar handed to ReadmeParser with the entry's date. */
  function ResolveReadme(field: Option<Node>, entryDate: Date,
                         parser: (string, Date) -> Result<Readme, string>): (r: Result<Option<Readme>, Error>)
    ensures field.None? ==> r == Ok(None)
    ensures field.Some? && !field.value.Scalar? ==> r == Err(InvalidCast)
    ensures r.Ok? && r.value.Some? ==>
              field.Some? && field.value.Scalar? && parser(field.value.value, entryDate) == Ok(r.value.value)
    ensures field.Some? && field.value.Scalar? && parser(field.value.value, entryDate).Err? ==>
              r == Err(ReadmeRejected(parser(field.value.value, entryDate).error))
    ensures field.Some? && field.value.Scalar? && parser(field.value.value, entryDate).Ok? ==>
              r == Ok(Some(parser(field.value.value, entryDate).value))
  {
    match field
    case None => Ok(None)
    case Some(Scalar(v)) =>
      (match parser(v, entryDate)
       case Ok(readme) => Ok(Some(readme))
       case Err(message) => Err(ReadmeRejected(message)))
    case Some(_) => Err(InvalidCast)
  }

  /** Everything up to the readme succeeds: the keys are scalars and the
      tags field can be indexed and read. */
  predicate TagsReadable(root: Node, show: Node -> string) {
    && KeysAreScalars(root)
    && Field(root, "tags").Ok?
    && TagList(Field(root, "tags").value, show).Ok?
  }

  /** The loaded document's root node read into a front matter value. */
  function Interpret(root: Node, entryDate: Date, env: Collaborators): (r: Result<FrontMatter, Error>)
    ensures !KeysAreScalars(root) ==> r == Err(InvalidCast)
    ensures KeysAreScalars(root) && Field(root, "tags").Err? ==> r == Err(Field(root, "tags").error)
    ensures (KeysAreScalars(root) && Field(root, "tags").Ok? && Field(root, "tags").value.Some?
             && !Field(root, "tags").value.value.Sequence?) ==> r == Err(InvalidCast)
    ensures TagsReadable(root, env.show) && Field(root, "readme").Err? ==>
              r == Err(Field(root, "readme").error)
    ensures (TagsReadable(root, env.show) && Field(root, "readme").Ok? && Field(root, "readme").value.Some?
             && !Field(root, "readme").value.value.Scalar?) ==> r == Err(InvalidCast)
    ensures (TagsReadable(root, env.show) && Field(root, "readme").Ok? && Field(root, "readme").value.Some?
             && Field(root, "readme").value.value.Scalar?
             && env.readmeParser(Field(root, "readme").value.value.value, entryDate).Err?) ==>
              r == Err(ReadmeRejected(env.readmeParser(Field(root, "readme").value.value.value, entryDate).error))
    ensures r.Ok? ==> (r.value.tags.Some? <==> HasKeyNamed(root, "tags"))
    ensures r.Ok? ==> (r.value.readme.Some? <==> HasKeyNamed(root, "readme"))
    ensures r.Ok? ==> (r.value.readmeDate.Some? <==> HasKeyNamed(root, "readme"))
    ensures r.Ok? && r.value.tags.Some? ==>
              NoDuplicates(r.value.tags.value)
              && exists items :: Field(root, "tags") == Ok(Some(Sequence(items)))
                              && SameElements(r.value.tags.value, Texts(items, env.show))
    ensures r.Ok? && r.value.readme.Some? ==>
              exists v :: Field(root, "readme") == Ok(Some(Scalar(v)))
                       && env.readmeParser(v, entryDate) == Ok(Readme(r.value.readme.value, r.value.readmeDate.value))
  {
    if !KeysAreScalars(root) then Err(InvalidCast)
    else
      var tagsField :- Field(root, "tags");
      var tags :- TagList(tagsField, env.show);
      var readmeField :- Field(root, "readme");
      var readme :- ResolveReadme(readmeField, entryDate, env.readmeParser);
      Ok(FrontMatter(
        tags,
        if readme.Some? then Some(readme.value.frontMatterValue) else None,
        if readme.Some? then Some(readme.value.expirationDate) else None))
  }

  /** Reading a document succeeds exactly when every key is a scalar, both
      fields can be indexed, tags (if present) is a sequence, and readme (if
      present) is a scalar that ReadmeParser accepts. */
  lemma InterpretSucceeds(root: Node, entryDate: Date, env: Collaborators)
    ensures Interpret(root, entryDate, env).Ok? <==>
              && KeysAreScalars(root)
              && Field(root, "tags").Ok?
              && (Field(root, "tags").value.None? || Field(root, "tags").value.value.Sequence?)
              && Field(root, "readme").Ok?
              && (Field(root, "readme").value.None?
                  || (Field(root, "readme").value.value.Scalar?
                      && env.readmeParser(Field(root, "readme").value.value.value, entryDate).Ok?))
  {
  }

  /** Load the stripped text and read the first document. */
  function LoadAndInterpret(text: string, entryDate: Date, env: Collaborators): (r: Result<FrontMatter, Error>)
    ensures env.load(text).Err? ==> r == Err(YamlRejected(env.load(text).error))
    ensures env.load(text) == Ok([]) ==> r == Err(IndexOutOfRange)
    ensures env.load(text).Ok? && |env.load(text).value| > 0 ==>
              r == Interpret(env.load(text).value[0], entryDate, env)
  {
    match env.load(text)
    case Err(message) => Err(YamlRejected(message))
    case Ok(documents) =>
      if |documents| == 0 then Err(IndexOutOfRange) else Interpret(documents[0], entryDate, env)
  }

  /** JournalFrontMatter(yamlFrontMatter, journalEntryDate). */
  function Parse(yaml: string, entryDate: Date, env: Collaborators): (r: Result<FrontMatter, Error>)
    ensures StripDelimiters(yaml).Err? ==> r == Err(IndexOutOfRange)
    ensures StripDelimiters(yaml).Ok? ==> r == LoadAndInterpret(StripDelimiters(yaml).value, entryDate, env)
  {
    var text :- StripDelimiters(yaml);
    LoadAndInterpret(text, entryDate, env)
  }

  /** FromFilePath over the file's lines and the date its name parses to
      (None when it does not parse). */
  function FromFilePath(lines: seq<string>, fileDate: Option<Date>, env: Collaborators): (r: Result<FrontMatter, Error>)
    ensures (|lines| == 0 || lines[0] != Delimiter) ==> r == Ok(Empty)
    ensures Extract(lines).Block? && fileDate.None? ==> r == Err(DateUnparseable)
    ensures Extract(lines).Block? && fileDate.Some? ==>
              r == Parse(AppendLines(Extract(lines).lines), fileDate.value, env)
  {
    match Extract(lines)
    case NoFrontMatter => Ok(Empty)
    case Block(b) =>
      if fileDate.None? then Err(DateUnparseable)
      else Parse(AppendLines(b), fileDate.value, env)
  }

  // ---------------------------------------------------------------------------
  // Rendering (ToString)
  // ---------------------------------------------------------------------------

  /** ToString(asFrontMatter): the serializer's text with every "- " indented,
      trimmed, and wrapped in delimiter lines when asFrontMatter is set. */
  function Render(fm: FrontMatter, asFrontMatter: bool, env: Collaborators): (r: string)
    ensures !asFrontMatter ==> Trimmed(r)
    ensures asFrontMatter ==>
              |r| >= 8 && r[..4] == Delimiter + NewLine && r[|r| - 4..] == NewLine + Delimiter
              && Trimmed(r[4..|r| - 4])
  {
    var body := Trim(IndentItems(env.serialize(fm.tags, fm.readme)));
    if asFrontMatter then
      WrapShape(body);
      Wrap(body)
    else body
  }

  /** ToString(): the unwrapped rendering. */
  function Show(fm: FrontMatter, env: Collaborators): (r: string)
    ensures Trimmed(r)
    ensures Wrap(r) == Render(fm, true, env)
  {
    Render(fm, false, env)
  }
}
