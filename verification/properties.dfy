/** Properties that relate several front-matter operations: what the parser
    sees of a rendered block, where a key is looked up, and reading a rendered
    value back. */
module FrontMatterProperties {
  import opened Results
  import opened Text
  import opened Collections
  import opened Yaml
  import opened JournalFrontMatter

  // ---------------------------------------------------------------------------
  // Rendering
  // ---------------------------------------------------------------------------

  /** ToString(false) is the trimmed serializer text with two spaces put in
      front of every "- ", by the character-wise reference of the rewrite. */
  lemma RenderBodyIsIndentedSerializerText(fm: FrontMatter, env: Collaborators)
    ensures Render(fm, false, env) == Trim(InsertIndent(env.serialize(fm.tags, fm.readme)))
  {
    IndentItemsIsInsertion(env.serialize(fm.tags, fm.readme));
  }

  /** ReadmeDate is not serialized, so it never shows in the rendering. */
  lemma RenderIgnoresReadmeDate(fm: FrontMatter, d: Option<Date>, asFrontMatter: bool, env: Collaborators)
    ensures Render(fm.(readmeDate := d), asFrontMatter, env) == Render(fm, asFrontMatter, env)
  {
  }

  /** A wrapped text with no delimiter line of its own is the block that
      Extract finds at the head of any file it opens. */
  lemma WrappedBlockExtracted(y: string, body: seq<string>)
    requires Delimiter !in Pieces(y)
    ensures Extract(Pieces(Wrap(y)) + body) == Block(Pieces(Wrap(y)))
  {
    PiecesOfWrap(y);
    var b := Pieces(Wrap(y));
    var lines := b + body;
    assert b == lines[..|b|];
    forall k | 1 <= k < |b| - 1
      ensures b[k] != Delimiter
    {
      assert b[k] == Pieces(y)[k - 1];
    }
    BlockUnique(lines, b);
  }

  /** A file that starts with a rendered front-matter block: FromFilePath
      finds exactly that block, whatever follows it, and hands the YAML loader
      the rendered body with its blank lines dropped. The body must not hold
      a line of its own that reads "---". */
  lemma {:induction false} RenderedBlockReachesLoader(fm: FrontMatter, env: Collaborators, body: seq<string>, date: Date)
    requires Delimiter !in Pieces(Show(fm, env))
    ensures var lines := Pieces(Render(fm, true, env)) + body;
            && Extract(lines) == Block(Pieces(Render(fm, true, env)))
            && FromFilePath(lines, Some(date), env)
               == LoadAndInterpret(JoinLines(SplitLines(Show(fm, env))), date, env)
  {
    var y := Show(fm, env);
    var b := Pieces(Wrap(y));
    WrappedBlockExtracted(y, body);
    PiecesOfWrap(y);
    AppendLinesIsJoin(b);
    JoinOfPieces(Wrap(y));
    StripWrapped(y);
  }

  /** With no blank line in the rendered body, the loader receives that body
      exactly as ToString() produced it. */
  lemma RenderedBodyReachesLoaderIntact(fm: FrontMatter, env: Collaborators, body: seq<string>, date: Date)
    requires Delimiter !in Pieces(Show(fm, env))
    requires "" !in Pieces(Show(fm, env))
    ensures FromFilePath(Pieces(Render(fm, true, env)) + body, Some(date), env)
         == LoadAndInterpret(Show(fm, env), date, env)
  {
    var y := Show(fm, env);
    RenderedBlockReachesLoader(fm, env, body, date);
    RemoveEmptyKeeps(Pieces(y));
    JoinOfPieces(y);
  }

  // ---------------------------------------------------------------------------
  // Key lookup
  // ---------------------------------------------------------------------------

  /** When the root mapping has a key that lower-cases to name, the first such
      root key decides the field, whatever nested mappings hold. */
  lemma {:induction false} RootKeyWins(es: seq<Entry>, name: string, i: nat)
    requires i < |es| && KeyNamed(es[i].key, name)
    requires forall j :: 0 <= j < i ==> !KeyNamed(es[j].key, name)
    ensures Field(Mapping(es), name) == Ok(Some(es[i].value))
  {
    var keys := AllKeys(Mapping(es));
    RootKeysFirst(es);
    var f := FirstNamed(keys, name);
    assert keys[i] == es[i].key;
    assert f == i;
    LookupFirstNamed(es, name, i);
  }

  /** When only a nested mapping has a key that lower-cases to name, that key
      is found but the root cannot be indexed by it. */
  lemma {:induction false} NestedOnlyKeyFails(es: seq<Entry>, name: string)
    requires HasKeyNamed(Mapping(es), name)
    requires forall j :: 0 <= j < |es| ==> !KeyNamed(es[j].key, name)
    ensures Field(Mapping(es), name) == Err(IndexFailed(KeyNotFound))
  {
    var k := FindKey(AllKeys(Mapping(es)), name);
    assert k.Some?;
    assert forall j :: 0 <= j < |es| ==> es[j].key != k.value;
  }

  /** "tags", "Tags" and "TAGS" all name the tags field; "tag" does not. */
  lemma TagsKeySpellings()
    ensures KeyNamed(Scalar("tags"), "tags")
    ensures KeyNamed(Scalar("Tags"), "tags")
    ensures KeyNamed(Scalar("TAGS"), "tags")
    ensures !KeyNamed(Scalar("tag"), "tags")
  {
    SpellsTags("tags");
    SpellsTags("Tags");
    SpellsTags("TAGS");
    LengthMismatchUnnamed("tag", "tags");
  }

  /** A four-letter key that spells "tags" in any mix of cases lower-cases to it. */
  lemma SpellsTags(k: string)
    requires |k| == 4 && k[0] in "tT" && k[1] in "aA" && k[2] in "gG" && k[3] in "sS"
    ensures ToLowerInvariant(k) == "tags"
  {
    var l := ToLowerInvariant(k);
    assert l[0] == 't' && l[1] == 'a' && l[2] == 'g' && l[3] == 's';
  }

  // ---------------------------------------------------------------------------
  // Reading a rendered value back
  // ---------------------------------------------------------------------------

  function Scalars(ts: seq<string>): (ns: seq<Node>)
    ensures |ns| == |ts|
    ensures forall i :: 0 <= i < |ts| ==> ns[i] == Scalar(ts[i])
  {
    seq(|ts|, i requires 0 <= i < |ts| => Scalar(ts[i]))
  }

  /** The mapping for fm with a `tags` sequence entry when there are tags,
      then a `readme` scalar entry when there is a readme. */
  function Document(fm: FrontMatter): Node {
    Mapping(TagsEntries(fm.tags) + ReadmeEntries(fm.readme))
  }

  function TagsEntries(tags: Option<seq<string>>): seq<Entry> {
    if tags.Some? then [Entry(Scalar("tags"), Sequence(Scalars(tags.value)))] else []
  }

  function ReadmeEntries(readme: Option<string>): seq<Entry> {
    if readme.Some? then [Entry(Scalar("readme"), Scalar(readme.value))] else []
  }

  lemma KeyNames()
    ensures KeyNamed(Scalar("tags"), "tags") && !KeyNamed(Scalar("tags"), "readme")
    ensures KeyNamed(Scalar("readme"), "readme") && !KeyNamed(Scalar("readme"), "tags")
  {
    LowerWordUnchanged("tags");
    LowerWordUnchanged("readme");
    LengthMismatchUnnamed("tags", "readme");
    LengthMismatchUnnamed("readme", "tags");
  }

  lemma DocumentKeyList(fm: FrontMatter)
    ensures AllKeys(Document(fm)) == KeysOf(Document(fm).entries)
    ensures KeysAreScalars(Document(fm))
  {
    AllKeysOfFlatMapping(Document(fm).entries);
  }

  /** In a mapping that holds only its own keys, a name no key carries gives no field. */
  lemma FieldAbsent(es: seq<Entry>, name: string)
    requires AllKeys(Mapping(es)) == KeysOf(es)
    requires forall j :: 0 <= j < |es| ==> !KeyNamed(es[j].key, name)
    ensures Field(Mapping(es), name) == Ok(None)
  {
    assert forall j :: 0 <= j < |es| ==> AllKeys(Mapping(es))[j] == es[j].key;
  }

  lemma DocumentTags(fm: FrontMatter)
    ensures fm.tags.Some? ==> Field(Document(fm), "tags") == Ok(Some(Sequence(Scalars(fm.tags.value))))
    ensures fm.tags.None? ==> Field(Document(fm), "tags") == Ok(None)
  {
    var es := Document(fm).entries;
    DocumentKeyList(fm);
    KeyNames();
    if fm.tags.Some? {
      RootKeyWins(es, "tags", 0);
    } else {
      assert es == ReadmeEntries(fm.readme);
      assert |es| <= 1 && forall j :: 0 <= j < |es| ==> es[j].key == Scalar("readme");
      FieldAbsent(es, "tags");
    }
  }

  lemma DocumentReadme(fm: FrontMatter)
    ensures fm.readme.Some? ==> Field(Document(fm), "readme") == Ok(Some(Scalar(fm.readme.value)))
    ensures fm.readme.None? ==> Field(Document(fm), "readme") == Ok(None)
  {
    var es := Document(fm).entries;
    DocumentKeyList(fm);
    KeyNames();
    if fm.readme.Some? {
      var i := |es| - 1;
      assert es[i] == Entry(Scalar("readme"), Scalar(fm.readme.value));
      assert forall j :: 0 <= j < i ==> es[j].key == Scalar("tags");
      RootKeyWins(es, "readme", i);
    } else {
      assert es == TagsEntries(fm.tags);
      assert |es| <= 1 && forall j :: 0 <= j < |es| ==> es[j].key == Scalar("tags");
      FieldAbsent(es, "readme");
    }
  }

  /** Reading the mapping Document(fm): the tags come back
      as the same set without repeats, and the readme as ReadmeParser's
      reading of the value that was written. */
  lemma InterpretDocument(fm: FrontMatter, env: Collaborators, date: Date)
    requires fm.readme.Some? ==> env.readmeParser(fm.readme.value, date).Ok?
    ensures var r := Interpret(Document(fm), date, env);
            && r.Ok?
            && (r.value.tags.Some? <==> fm.tags.Some?)
            && (fm.tags.Some? ==> NoDuplicates(r.value.tags.value) && SameElements(r.value.tags.value, fm.tags.value))
            && (r.value.readme.Some? <==> fm.readme.Some?)
            && (fm.readme.Some? ==> r.value.readme == Some(env.readmeParser(fm.readme.value, date).value.frontMatterValue))
  {
    DocumentKeyList(fm);
    DocumentTags(fm);
    DocumentReadme(fm);
    InterpretSucceeds(Document(fm), date, env);
    if fm.tags.Some? {
      var ts := fm.tags.value;
      assert Texts(Scalars(ts), env.show) == ts;
    }
  }

  /** Writing a value into a file and reading the file back: when the loader
      reads the rendered body as the document the serializer meant, the value
      read back is the one InterpretDocument describes. */
  lemma ReadBackRendered(fm: FrontMatter, env: Collaborators, body: seq<string>, date: Date)
    requires Delimiter !in Pieces(Show(fm, env))
    requires "" !in Pieces(Show(fm, env))
    requires env.load(Show(fm, env)) == Ok([Document(fm)])
    ensures FromFilePath(Pieces(Render(fm, true, env)) + body, Some(date), env)
         == Interpret(Document(fm), date, env)
  {
    RenderedBodyReachesLoaderIntact(fm, env, body, date);
  }
}
