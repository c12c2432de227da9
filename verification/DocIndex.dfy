/** The inverted index behind DOC.SEARCH, src/core/DataStore.js. How words are cut out of a JSON value and how a
    value becomes a number are parameters; what is proved is that updating the index one document at a time
    never drifts from building it afresh. */
module DocIndex {
  import opened Wrappers

  datatype Kind = Text | Numeric

  /** A declared index: the kind of each field, the words a document has in a field, and its number there,
      None where the value is not a finite number. */
  datatype Schema<!D> = Schema(
    fields: map<string, Kind>,
    words: (D, string) -> set<string>,
    number: (D, string) -> Option<real>)

  predicate SaysWord<D>(schema: Schema<D>, doc: D, field: string, word: string) {
    field in schema.fields && schema.fields[field] == Text && word in schema.words(doc, field)
  }

  predicate SaysNumber<D>(schema: Schema<D>, doc: D, field: string) {
    field in schema.fields && schema.fields[field] == Numeric && schema.number(doc, field).Some?
  }

  type Postings = map<string, map<string, set<string>>>
  type Numbers = map<string, map<string, real>>

  predicate Posted(text: Postings, field: string, word: string, key: string) {
    field in text && word in text[field] && key in text[field][word]
  }

  predicate Counted(numeric: Numbers, field: string, key: string) {
    field in numeric && key in numeric[field]
  }

  predicate NoEmptySets(text: Postings) {
    forall field, word :: field in text && word in text[field] ==> text[field][word] != {}
  }

  /** `text` holds exactly the words of the documents in `indexed`, under their keys. */
  ghost predicate TextAgrees<D>(schema: Schema<D>, text: Postings, indexed: map<string, D>) {
    && NoEmptySets(text)
    && forall field, word, key :: Posted(text, field, word, key) <==>
        key in indexed && SaysWord(schema, indexed[key], field, word)
  }

  predicate NumberIs<D>(schema: Schema<D>, numeric: Numbers, field: string, key: string, doc: D) {
    Counted(numeric, field, key) && schema.number(doc, field) == Some(numeric[field][key])
  }

  ghost predicate NumbersAgree<D>(schema: Schema<D>, numeric: Numbers, indexed: map<string, D>) {
    forall field, key ::
      && (Counted(numeric, field, key) <==> key in indexed && SaysNumber(schema, indexed[key], field))
      && (Counted(numeric, field, key) ==> NumberIs(schema, numeric, field, key, indexed[key]))
  }

  // ---------- what is stored is determined by the documents ----------

  function Terms(text: Postings, field: string): map<string, set<string>> {
    if field in text then text[field] else map[]
  }

  function Values(numeric: Numbers, field: string): map<string, real> {
    if field in numeric then numeric[field] else map[]
  }

  /** DETERMINED. Two indexes of one schema over the same documents have the same postings and the same
      numbers in every field, whatever adding, updating, deleting or rebuilding led to each. */
  lemma {:induction false} SameDocumentsSameIndex<D>(schema: Schema<D>, indexed: map<string, D>, field: string,
                                                   text1: Postings, numeric1: Numbers,
                                                   text2: Postings, numeric2: Numbers)
    requires TextAgrees(schema, text1, indexed) && NumbersAgree(schema, numeric1, indexed)
    requires TextAgrees(schema, text2, indexed) && NumbersAgree(schema, numeric2, indexed)
    ensures Terms(text1, field) == Terms(text2, field)
    ensures Values(numeric1, field) == Values(numeric2, field)
  {
    hide SaysWord, SaysNumber;
    TermsWithin(schema, indexed, field, text1, text2);
    TermsWithin(schema, indexed, field, text2, text1);
    var v1, v2 := Values(numeric1, field), Values(numeric2, field);
    forall key ensures key in v1 <==> key in v2 {
      assert Counted(numeric1, field, key) <==> Counted(numeric2, field, key);
    }
    forall key | key in v1 ensures v1[key] == v2[key] {
      assert Counted(numeric1, field, key) && Counted(numeric2, field, key);
    }
  }

  lemma TermsWithin<D>(schema: Schema<D>, indexed: map<string, D>, field: string, text1: Postings, text2: Postings)
    requires TextAgrees(schema, text1, indexed) && TextAgrees(schema, text2, indexed)
    ensures forall word :: word in Terms(text1, field) ==>
                             word in Terms(text2, field) && Terms(text1, field)[word] == Terms(text2, field)[word]
  {
    hide SaysWord;
    forall word | word in Terms(text1, field)
      ensures word in Terms(text2, field) && Terms(text1, field)[word] == Terms(text2, field)[word]
    {
      var here := text1[field][word];
      assert here != {};
      var some :| some in here;
      assert Posted(text1, field, word, some) && Posted(text2, field, word, some);
      var there := text2[field][word];
      forall key ensures key in here <==> key in there {
        assert Posted(text1, field, word, key) <==> key in here;
        assert Posted(text2, field, word, key) <==> key in there;
      }
    }
  }

  // ---------- one posting ----------

  function AddPosting(text: Postings, field: string, word: string, key: string): Postings {
    var terms := Terms(text, field);
    text[field := terms[word := (if word in terms then terms[word] else {}) + {key}]]
  }

  lemma AddPostingOk(text: Postings, field: string, word: string, key: string)
    requires NoEmptySets(text)
    ensures NoEmptySets(AddPosting(text, field, word, key))
    ensures forall f, w, k :: Posted(AddPosting(text, field, word, key), f, w, k) <==>
                                Posted(text, f, w, k) || (f == field && w == word && k == key)
  {
  }

  /** Removing the last key removes the word. */
  function DropPosting(text: Postings, field: string, word: string, key: string): Postings
    requires field in text && word in text[field]
  {
    var left := text[field][word] - {key};
    if key in text[field][word] && left == {} then text[field := text[field] - {word}]
    else text[field := text[field][word := left]]
  }

  lemma DropPostingOk(text: Postings, field: string, word: string, key: string)
    requires field in text && word in text[field] && NoEmptySets(text)
    ensures NoEmptySets(DropPosting(text, field, word, key))
    ensures DropPosting(text, field, word, key).Keys == text.Keys
    ensures DropPosting(text, field, word, key)[field].Keys + {word} == text[field].Keys
    ensures forall f, w, k :: Posted(DropPosting(text, field, word, key), f, w, k) <==>
                                Posted(text, f, w, k) && !(f == field && w == word && k == key)
  {
    var after := DropPosting(text, field, word, key);
    forall f, w, k ensures Posted(after, f, w, k) <==> Posted(text, f, w, k) && !(f == field && w == word && k == key)
    {
      var left := text[field][word] - {key};
      assert k in left <==> k in text[field][word] && k != key;
      if f == field {
        if key in text[field][word] && left == {} {
          assert after[field] == text[field] - {word};
        } else {
          assert after[field] == text[field][word := left];
        }
      }
    }
  }

  function SetNumber(numeric: Numbers, field: string, key: string, value: real): Numbers {
    numeric[field := Values(numeric, field)[key := value]]
  }

  lemma SetNumberOk<D>(schema: Schema<D>, numeric: Numbers, field: string, key: string, value: real)
    ensures forall f, k :: Counted(SetNumber(numeric, field, key, value), f, k) <==>
                             Counted(numeric, f, k) || (f == field && k == key)
    ensures forall f, k, doc: D :: !(f == field && k == key) && NumberIs(schema, numeric, f, k, doc) ==>
                                     NumberIs(schema, SetNumber(numeric, field, key, value), f, k, doc)
    ensures forall doc: D :: schema.number(doc, field) == Some(value) ==>
                               NumberIs(schema, SetNumber(numeric, field, key, value), field, key, doc)
  {
  }

  lemma SaysOnlyInFields<D>(schema: Schema<D>, doc: D)
    ensures forall f, w :: SaysWord(schema, doc, f, w) ==> f in schema.fields
    ensures forall f :: SaysNumber(schema, doc, f) ==> f in schema.fields
  {
  }

  lemma SaysIn<D>(schema: Schema<D>, doc: D, field: string)
    requires field in schema.fields
    ensures schema.fields[field] == Text ==>
              forall word :: SaysWord(schema, doc, field, word) <==> word in schema.words(doc, field)
    ensures schema.fields[field] == Text ==> !SaysNumber(schema, doc, field)
    ensures schema.fields[field] == Numeric ==> forall word :: !SaysWord(schema, doc, field, word)
    ensures schema.fields[field] == Numeric ==> (SaysNumber(schema, doc, field) <==> schema.number(doc, field).Some?)
  {
  }

  // ---------- searching ----------

  predicate StandsAt(word: string, needle: string, i: nat) {
    i + |needle| <= |word| && word[i..i + |needle|] == needle
  }

  /** word.includes(needle) */
  predicate Contains(word: string, needle: string) { exists i :: 0 <= i <= |word| && StandsAt(word, needle, i) }

  /** A word contains what it has anywhere between two other parts, empty or not. */
  lemma ContainsIff(word: string, needle: string)
    ensures Contains(word, needle) <==> exists a, b :: word == a + needle + b
  {
    if Contains(word, needle) {
      var i :| 0 <= i <= |word| && StandsAt(word, needle, i);
      var a, b := word[..i], word[i + |needle|..];
      assert word == a + needle + b;
    }
    if exists a, b :: word == a + needle + b {
      var a, b :| word == a + needle + b;
      assert StandsAt(word, needle, |a|);
    }
  }

  ghost predicate HasWordLike<D>(schema: Schema<D>, doc: D, needle: string) {
    exists field, word :: SaysWord(schema, doc, field, word) && Contains(word, needle)
  }

  datatype Range = Range(field: string, min: real, max: real)

  /** An empty field name counts as no filter. */
  predicate InRange<D>(schema: Schema<D>, doc: D, range: Range) {
    range.field == "" ||
    (SaysNumber(schema, doc, range.field) && range.min <= schema.number(doc, range.field).value <= range.max)
  }

  /** What a query asks of one document, read directly from the document. */
  ghost predicate Matches<D>(schema: Schema<D>, doc: D, tokens: seq<string>, range: Range) {
    tokens != [] && (forall t :: t in tokens ==> HasWordLike(schema, doc, t)) && InRange(schema, doc, range)
  }

  class DocumentIndex<D(==,!new)> {
    const schema: Schema<D>
    var text: Postings
    var numeric: Numbers
    var docs: set<string>
    /** Each indexed document, as it read when it was last indexed. */
    ghost var indexed: map<string, D>

    ghost predicate Agrees()
      reads this`text, this`numeric, this`indexed
    {
      TextAgrees(schema, text, indexed) && NumbersAgree(schema, numeric, indexed)
    }

    ghost predicate Valid()
      reads this
    {
      Agrees() && docs == indexed.Keys
    }

    constructor (schema: Schema<D>)
      ensures Valid() && this.schema == schema && indexed == map[]
    {
      this.schema := schema;
      text, numeric, docs, indexed := map[], map[], {}, map[];
    }

    /** _docIndexObject, the words of one field */
    method AddWords(key: string, field: string, words: set<string>)
      requires NoEmptySets(text)
      modifies this`text
      ensures NoEmptySets(text)
      ensures forall f, w, k :: Posted(text, f, w, k) <==>
                  old(Posted(text, f, w, k)) || (f == field && w in words && k == key)
    {
      hide AddPosting, Posted, NoEmptySets;
      var todo := words;
      while todo != {}
        invariant todo <= words && NoEmptySets(text)
        invariant forall f, w, k :: Posted(text, f, w, k) <==>
                                      old(Posted(text, f, w, k)) || (f == field && w in words - todo && k == key)
        decreases |todo|
      {
        var word :| word in todo;
        AddPostingOk(text, field, word, key);
        text := AddPosting(text, field, word, key);
        todo := todo - {word};
      }
    }

    /** _docIndexObject */
    method IndexObject(key: string, doc: D)
      requires Agrees() && key !in indexed
      modifies this`text, this`numeric, this`indexed
      ensures Agrees() && indexed == old(indexed)[key := doc]
    {
      hide Posted, Counted, NoEmptySets, SaysWord, SaysNumber;
      ghost var after := indexed[key := doc];
      SaysOnlyInFields(schema, doc);
      var todo := schema.fields.Keys;
      while todo != {}
        invariant todo <= schema.fields.Keys && NoEmptySets(text)
        invariant indexed == old(indexed)
        invariant forall f, w, k :: Posted(text, f, w, k) <==>
                                      old(Posted(text, f, w, k))
                                          || (k == key && f !in todo && SaysWord(schema, doc, f, w))
        invariant forall f, k :: Counted(numeric, f, k) <==>
                                   old(Counted(numeric, f, k)) || (k == key && f !in todo && SaysNumber(schema, doc, f))
        invariant forall f, k :: Counted(numeric, f, k) ==> k in after && NumberIs(schema, numeric, f, k, after[k])
        decreases |todo|
      {
        var field :| field in todo;
        SaysIn(schema, doc, field);
        match schema.fields[field] {
          case Text =>
            AddWords(key, field, schema.words(doc, field));
          case Numeric =>
            match schema.number(doc, field) {
              case None =>
              case Some(value) =>
                SetNumberOk(schema, numeric, field, key, value);
                numeric := SetNumber(numeric, field, key, value);
            }
        }
        todo := todo - {field};
      }
      indexed := after;
    }

    /** _docUnindex, one field */
    method DropWords(key: string, field: string)
      requires NoEmptySets(text) && field in text
      modifies this`text
      ensures NoEmptySets(text) && text.Keys == old(text.Keys)
      ensures forall f, w, k :: Posted(text, f, w, k) <==> old(Posted(text, f, w, k)) && !(f == field && k == key)
    {
      hide DropPosting, Posted, NoEmptySets;
      PostedWordIsKey(text, field, key);
      var todo := text[field].Keys;
      ghost var words := todo;
      while todo != {}
        invariant text.Keys == old(text.Keys) && todo <= words && todo <= text[field].Keys && NoEmptySets(text)
        invariant forall f, w, k :: Posted(text, f, w, k) <==>
                                      old(Posted(text, f, w, k)) && !(f == field && k == key && w in words - todo)
        decreases |todo|
      {
        var word :| word in todo;
        DropPostingOk(text, field, word, key);
        text := DropPosting(text, field, word, key);
        todo := todo - {word};
      }
    }

    /** _docUnindex, the words */
    method UnindexText(key: string)
      requires NoEmptySets(text)
      modifies this`text
      ensures NoEmptySets(text)
      ensures forall f, w, k :: Posted(text, f, w, k) <==> old(Posted(text, f, w, k)) && k != key
    {
      hide Posted, NoEmptySets;
      PostedFieldIsKey(text);
      var todo := text.Keys;
      while todo != {}
        invariant todo <= text.Keys == old(text.Keys) && NoEmptySets(text)
        invariant forall f, w, k :: Posted(text, f, w, k) <==>
                    old(Posted(text, f, w, k)) && !(k == key && f in text.Keys - todo)
        decreases |todo|
      {
        var field :| field in todo;
        DropWords(key, field);
        todo := todo - {field};
      }
    }

    /** _docUnindex, the numbers */
    method UnindexNumbers(key: string)
      requires NumbersAgree(schema, numeric, indexed)
      modifies this`numeric
      ensures NumbersAgree(schema, numeric, indexed - {key})
    {
      hide Counted, NumberIs, SaysNumber;
      CountedFieldIsKey(numeric);
      var todo := numeric.Keys;
      while todo != {}
        invariant todo <= numeric.Keys == old(numeric.Keys)
        invariant forall f, k :: Counted(numeric, f, k) <==>
                    old(Counted(numeric, f, k)) && !(k == key && f in numeric.Keys - todo)
        invariant forall f, k :: Counted(numeric, f, k) ==> k in indexed && NumberIs(schema, numeric, f, k, indexed[k])
        decreases |todo|
      {
        var field :| field in todo;
        DropNumberOk(schema, numeric, field, key);
        numeric := DropNumber(numeric, field, key);
        todo := todo - {field};
      }
    }

    /** _docUnindex */
    method Unindex(key: string)
      requires Agrees()
      modifies this`text, this`numeric, this`indexed
      ensures Agrees() && indexed == old(indexed) - {key}
    {
      hide NoEmptySets, Posted, SaysWord, NumbersAgree;
      UnindexText(key);
      UnindexNumbers(key);
      indexed := indexed - {key};
    }

    /** DOC.INDEXADD and DOC.INDEXUPDATE; `found` is the JSON document under the key, if there is one. */
    method IndexAdd(key: string, found: Option<D>) returns (ok: bool)
      requires Valid()
      modifies this
      ensures Valid() && ok == found.Some?
      ensures indexed == if found.Some? then old(indexed)[key := found.value] else old(indexed)
    {
      hide TextAgrees, NumbersAgree;
      if found == None { return false; }
      Unindex(key);
      IndexObject(key, found.value);
      docs := docs + {key};
      ok := true;
    }

    /** DOC.INDEXDEL */
    method IndexDel(key: string)
      requires Valid()
      modifies this
      ensures Valid() && indexed == old(indexed) - {key}
    {
      hide TextAgrees, NumbersAgree;
      Unindex(key);
      docs := docs - {key};
    }

    method Clear()
      modifies this
      ensures Valid() && indexed == map[]
    {
      text, numeric, docs, indexed := map[], map[], {}, map[];
    }

    /** DOC.INDEXREBUILD; `documents` are the JSON documents whose keys the prefix selects. */
    method IndexRebuild(documents: map<string, D>)
      requires Valid()
      modifies this
      ensures Valid() && indexed == documents
    {
      hide DocumentIndex.Agrees, Except;
      ExceptOk(documents);
      Clear();
      var todo := documents.Keys;
      while todo != {}
        invariant todo <= documents.Keys && Valid()
        invariant indexed == Except(documents, todo)
        decreases |todo|
      {
        var key :| key in todo;
        OneMore(documents, todo, key);
        IndexObject(key, documents[key]);
        docs := docs + {key};
        todo := todo - {key};
      }
    }

    /** DOC.SEARCH, one token in one field */
    method FieldPostings(field: string, needle: string) returns (postings: set<string>)
      requires field in text
      ensures forall key :: key in postings <==> exists word :: Posted(text, field, word, key) && Contains(word, needle)
    {
      hide Contains;
      postings := {};
      var todo := text[field].Keys;
      while todo != {}
        invariant todo <= text[field].Keys
        invariant forall key :: key in postings <==>
                                  exists word :: word !in todo && Posted(text, field, word, key)
                                      && Contains(word, needle)
        decreases |todo|
      {
        var word :| word in todo;
        if Contains(word, needle) { postings := postings + text[field][word]; }
        todo := todo - {word};
      }
    }

    /** DOC.SEARCH, one token */
    method TokenPostings(needle: string) returns (postings: set<string>)
      requires Valid()
      ensures postings == set key | key in indexed && HasWordLike(schema, indexed[key], needle)
    {
      hide Contains, Posted, NoEmptySets, NumbersAgree;
      PostedFieldIsKey(text);
      postings := {};
      var todo := schema.fields.Keys;
      while todo != {}
        invariant todo <= schema.fields.Keys
        invariant forall key :: key in postings <==>
                                  exists field, word :: field in schema.fields.Keys - todo
                                      && schema.fields[field] == Text &&
                                                        Posted(text, field, word, key) && Contains(word, needle)
        decreases |todo|
      {
        var field :| field in todo;
        if schema.fields[field] == Text && field in text {
          var more := FieldPostings(field, needle);
          postings := postings + more;
        }
        todo := todo - {field};
      }
    }

    /** DOC.SEARCH up to LIMIT: the keys found, read off the postings. */
    method Search(tokens: seq<string>, range: Range) returns (results: set<string>)
      requires Valid()
      ensures results == set key | key in indexed && Matches(schema, indexed[key], tokens, range)
    {
      hide TextAgrees, HasWordLike, NumbersAgree;
      if tokens == [] { return {}; }
      results := {};
      var i := 0;
      while i < |tokens|
        invariant 0 <= i <= |tokens|
        invariant i > 0 ==>
                    results == set key | key in indexed &&
                                         forall t :: t in tokens[..i] ==> HasWordLike(schema, indexed[key], t)
      {
        var postings := TokenPostings(tokens[i]);
        assert tokens[..i + 1] == tokens[..i] + [tokens[i]];
        results := if i == 0 then postings else results * postings;
        i := i + 1;
        if results == {} { break; }
      }
      assert i == |tokens| ==> tokens[..i] == tokens;
      if range.field != "" {
        NumbersFind(schema, numeric, indexed, range);
        if range.field in numeric {
          results := set key | key in results && key in numeric[range.field]
              && range.min <= numeric[range.field][key] <= range.max;
        } else {
          results := {};
        }
      }
    }
  }

  function Except<D>(documents: map<string, D>, keys: set<string>): map<string, D> { documents - keys }

  lemma ExceptOk<D>(documents: map<string, D>)
    ensures Except(documents, documents.Keys) == map[] && Except(documents, {}) == documents
  {
  }

  lemma OneMore<D>(documents: map<string, D>, todo: set<string>, key: string)
    requires key in todo && todo <= documents.Keys
    ensures key !in Except(documents, todo)
    ensures Except(documents, todo)[key := documents[key]] == Except(documents, todo - {key})
  {
  }

  lemma PostedWordIsKey(text: Postings, field: string, key: string)
    requires field in text
    ensures forall w :: Posted(text, field, w, key) ==> w in text[field].Keys
  {
  }

  lemma PostedFieldIsKey(text: Postings)
    ensures forall f, w, k :: Posted(text, f, w, k) ==> f in text.Keys
  {
  }

  lemma CountedFieldIsKey(numeric: Numbers)
    ensures forall f, k :: Counted(numeric, f, k) ==> f in numeric.Keys
  {
  }

  function DropNumber(numeric: Numbers, field: string, key: string): Numbers
    requires field in numeric
  {
    numeric[field := numeric[field] - {key}]
  }

  lemma DropNumberOk<D>(schema: Schema<D>, numeric: Numbers, field: string, key: string)
    requires field in numeric
    ensures forall f, k :: Counted(DropNumber(numeric, field, key), f, k) <==>
                Counted(numeric, f, k) && !(f == field && k == key)
    ensures forall f, k, doc: D ::
              Counted(DropNumber(numeric, field, key), f, k) && NumberIs(schema, numeric, f, k, doc) ==>
                NumberIs(schema, DropNumber(numeric, field, key), f, k, doc)
  {
  }

  lemma NumbersFind<D>(schema: Schema<D>, numeric: Numbers, indexed: map<string, D>, range: Range)
    requires NumbersAgree(schema, numeric, indexed) && range.field != ""
    ensures forall key :: key in indexed ==>
                            (InRange(schema, indexed[key], range) <==>
                             range.field in numeric && key in numeric[range.field] &&
                             range.min <= numeric[range.field][key] <= range.max)
  {
    hide SaysNumber;
    forall key | key in indexed
      ensures InRange(schema, indexed[key], range) <==>
              range.field in numeric && key in numeric[range.field]
                  && range.min <= numeric[range.field][key] <= range.max
    {
      assert Counted(numeric, range.field, key) <==> SaysNumber(schema, indexed[key], range.field);
    }
  }
}
