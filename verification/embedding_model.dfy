/** The FAQ write path of RAG/Embedding_model.py: each processed FAQ record is
    embedded by a hosted model and written as a hash into a key/value store
    whose search index covers the keys starting with `faq:`.

    The embedding service is an oracle: a function from the number of calls
    made so far and the text sent to the response it gives. The store is a
    class holding the hashes and the search indexes it knows. */
module EmbeddingModel {
  import opened PyStr
  import opened TextManage

  const IndexName: string := "faq_index"
  const VectorDim: nat := 1024
  const DistanceMetric: string := "COSINE"
  /** The only key prefix the FAQ index covers. */
  const KeyPrefix: string := "faq:"
  /** `HTTPStatus.OK`. */
  const StatusOk: int := 200

  /** An embedding vector, as the bytes stored in the hash; never inspected. */
  datatype Vector = Vector(bytes: seq<bv8>)

  /** A hash field value: text, or the vector's bytes. */
  datatype Value = Text(text: string) | Blob(vector: Vector)

  /** What the embedding service answers to one call. */
  datatype EmbedResponse = EmbedResponse(
    statusCode: int, embedding: Vector, requestId: string, code: string, message: string)

  /** The schema `create_index` asks for: five text fields, one HNSW vector
      field, and the key prefixes the index covers. */
  datatype IndexSchema = IndexSchema(
    textFields: seq<string>, vectorField: string, algorithm: string,
    dim: nat, metric: string, prefixes: seq<string>)

  const FaqSchema: IndexSchema :=
    IndexSchema(["question", "answer", "source", "category", "crawl_time"], "embedding",
                "HNSW", VectorDim, DistanceMetric, [KeyPrefix])

  type Hash = map<string, Value>
  type Hashes = map<string, Hash>

  /** The text sent to the embedding service for one record. */
  function EmbeddingText(doc: FaqRecord): (t: string)
    ensures |t| == |doc.question| + 1 + |doc.answer|
    ensures t[..|doc.question|] == doc.question && t[|doc.question|] == ' '
    ensures t[|doc.question| + 1..] == doc.answer
  {
    doc.question + " " + doc.answer
  }

  /** The key a record is written under. */
  function FaqKey(requestId: string): (k: string)
    ensures StartsWith(k, KeyPrefix) && k[|KeyPrefix|..] == requestId
  {
    KeyPrefix + requestId
  }

  /** Distinct request ids give distinct keys. */
  lemma FaqKeyInjective(a: string, b: string)
    ensures FaqKey(a) == FaqKey(b) <==> a == b
  {
    if FaqKey(a) == FaqKey(b) {
      assert a == FaqKey(a)[|KeyPrefix|..];
    }
  }

  /** A key some prefix of the schema covers. */
  predicate Indexed(schema: IndexSchema, key: string) {
    exists i :: 0 <= i < |schema.prefixes| && StartsWith(key, schema.prefixes[i])
  }

  /** Every key `insert_faq` can write is covered by the FAQ index. */
  lemma FaqKeyIndexed(requestId: string)
    ensures Indexed(FaqSchema, FaqKey(requestId))
  {
    assert StartsWith(FaqKey(requestId), FaqSchema.prefixes[0]);
  }

  /** The mapping `insert_faq` writes for a record and its vector. */
  function FaqFields(doc: FaqRecord, v: Vector): Hash {
    map["question" := Text(doc.question),
        "answer" := Text(doc.answer),
        "source" := Text(doc.metadata.source),
        "category" := Text(doc.metadata.category),
        "crawl_time" := Text(doc.metadata.crawlTime),
        "embedding" := Blob(v)]
  }

  /** The written fields are exactly the fields the index declares, the
      text fields holding the record's text and the vector field its vector. */
  lemma FaqFieldsMatchSchema(doc: FaqRecord, v: Vector)
    ensures FaqFields(doc, v).Keys ==
            (set i | 0 <= i < |FaqSchema.textFields| :: FaqSchema.textFields[i]) + {FaqSchema.vectorField}
    ensures forall i :: 0 <= i < |FaqSchema.textFields| ==> FaqFields(doc, v)[FaqSchema.textFields[i]].Text?
    ensures FaqFields(doc, v)[FaqSchema.vectorField] == Blob(v)
    ensures FaqFields(doc, v)["question"] == Text(doc.question)
    ensures FaqFields(doc, v)["answer"] == Text(doc.answer)
    ensures FaqFields(doc, v)["source"] == Text(doc.metadata.source)
    ensures FaqFields(doc, v)["category"] == Text(doc.metadata.category)
    ensures FaqFields(doc, v)["crawl_time"] == Text(doc.metadata.crawlTime)
  {
    var names := set i | 0 <= i < |FaqSchema.textFields| :: FaqSchema.textFields[i];
    assert FaqSchema.textFields[0] == "question";
    assert FaqSchema.textFields[1] == "answer";
    assert FaqSchema.textFields[2] == "source";
    assert FaqSchema.textFields[3] == "category";
    assert FaqSchema.textFields[4] == "crawl_time";
    assert names == {"question", "answer", "source", "category", "crawl_time"};
  }

  /** `HSET key mapping`: the given fields are set, the hash's other fields kept. */
  function HSet(hashes: Hashes, key: string, mapping: Hash): (r: Hashes)
    ensures r.Keys == hashes.Keys + {key}
    ensures forall k :: k in hashes && k != key ==> r[k] == hashes[k]
    ensures r[key].Keys == mapping.Keys + (if key in hashes then hashes[key].Keys else {})
    ensures forall f :: f in mapping ==> r[key][f] == mapping[f]
    ensures key in hashes ==> forall f :: f in hashes[key] && f !in mapping ==> r[key][f] == hashes[key][f]
  {
    var before: Hash := if key in hashes then hashes[key] else map[];
    hashes[key := map f | f in mapping.Keys + before.Keys :: if f in mapping then mapping[f] else before[f]]
  }

  /** What one `insert_faq` does to the hashes, given the service's response. */
  function InsertStep(hashes: Hashes, resp: EmbedResponse, doc: FaqRecord): Hashes {
    if resp.statusCode == StatusOk then
      HSet(hashes, FaqKey(resp.requestId), FaqFields(doc, resp.embedding))
    else
      hashes
  }

  /** A successful call writes the record's fields under `faq:<request id>`
      and touches no other key; a failed one writes nothing. */
  lemma InsertStepEffect(hashes: Hashes, resp: EmbedResponse, doc: FaqRecord)
    ensures resp.statusCode != StatusOk ==> InsertStep(hashes, resp, doc) == hashes
    ensures resp.statusCode == StatusOk ==>
              var r := InsertStep(hashes, resp, doc);
              var key := FaqKey(resp.requestId);
              r.Keys == hashes.Keys + {key}
              && (forall k :: k in hashes && k != key ==> r[k] == hashes[k])
              && (key !in hashes ==> r[key] == FaqFields(doc, resp.embedding))
              && (forall f :: f in FaqFields(doc, resp.embedding) ==> r[key][f] == FaqFields(doc, resp.embedding)[f])
  {
    if resp.statusCode == StatusOk {
      var key := FaqKey(resp.requestId);
      var r := InsertStep(hashes, resp, doc);
      if key !in hashes {
        assert r[key].Keys == FaqFields(doc, resp.embedding).Keys;
      }
    }
  }

  /** The response the service gives to the `i`-th record when the file's
      first record is call number `n`. */
  function ResponseFor(embed: (nat, string) -> EmbedResponse, n: nat, docs: seq<FaqRecord>, i: nat): EmbedResponse
    requires i < |docs|
  {
    embed(n + i, EmbeddingText(docs[i]))
  }

  /** The hashes after inserting `docs` in order, the first being call `n`. */
  function InsertAll(hashes: Hashes, embed: (nat, string) -> EmbedResponse, n: nat, docs: seq<FaqRecord>): Hashes
    decreases |docs|
  {
    if docs == [] then hashes
    else
      var last := |docs| - 1;
      InsertStep(InsertAll(hashes, embed, n, docs[..last]), ResponseFor(embed, n, docs, last), docs[last])
  }

  /** The keys of the records whose call succeeded. */
  function WrittenKeys(embed: (nat, string) -> EmbedResponse, n: nat, docs: seq<FaqRecord>): set<string> {
    set i | 0 <= i < |docs| && ResponseFor(embed, n, docs, i).statusCode == StatusOk
          :: FaqKey(ResponseFor(embed, n, docs, i).requestId)
  }

  /** Inserting a file adds exactly one key per successful call: a failed
      record is skipped and does not stop the records after it. */
  lemma {:induction false} InsertAllKeys(hashes: Hashes, embed: (nat, string) -> EmbedResponse, n: nat, docs: seq<FaqRecord>)
    ensures InsertAll(hashes, embed, n, docs).Keys == hashes.Keys + WrittenKeys(embed, n, docs)
    decreases |docs|
  {
    if docs != [] {
      var last := |docs| - 1;
      var init := docs[..last];
      InsertAllKeys(hashes, embed, n, init);
      assert forall i :: 0 <= i < last ==> ResponseFor(embed, n, init, i) == ResponseFor(embed, n, docs, i);
      var resp := ResponseFor(embed, n, docs, last);
      if resp.statusCode == StatusOk {
        assert WrittenKeys(embed, n, docs) == WrittenKeys(embed, n, init) + {FaqKey(resp.requestId)};
      } else {
        assert WrittenKeys(embed, n, docs) == WrittenKeys(embed, n, init);
      }
    }
  }

  /** Every key the file's records add is covered by the FAQ index. */
  lemma InsertAllIndexed(hashes: Hashes, embed: (nat, string) -> EmbedResponse, n: nat, docs: seq<FaqRecord>)
    ensures forall k :: k in InsertAll(hashes, embed, n, docs) && k !in hashes ==> Indexed(FaqSchema, k)
  {
    InsertAllKeys(hashes, embed, n, docs);
    forall k | k in InsertAll(hashes, embed, n, docs) && k !in hashes
      ensures Indexed(FaqSchema, k)
    {
      var i :| 0 <= i < |docs| && ResponseFor(embed, n, docs, i).statusCode == StatusOk
               && k == FaqKey(ResponseFor(embed, n, docs, i).requestId);
      FaqKeyIndexed(ResponseFor(embed, n, docs, i).requestId);
    }
  }

  /** The texts sent for a file's records, in file order. */
  function EmbeddingTexts(docs: seq<FaqRecord>): (ts: seq<string>)
    ensures |ts| == |docs|
    ensures forall i :: 0 <= i < |docs| ==> ts[i] == EmbeddingText(docs[i])
  {
    seq(|docs|, i requires 0 <= i < |docs| => EmbeddingText(docs[i]))
  }

  /** The key/value store with its search indexes, and the log of the texts
      sent to the embedding service. */
  class FaqStore {
    var hashes: Hashes
    var indexes: map<string, IndexSchema>
    var sent: seq<string>

    constructor()
      ensures hashes == map[] && indexes == map[] && sent == []
    {
      hashes := map[];
      indexes := map[];
      sent := [];
    }

    /** `create_index`: an existing index is left as it is; an absent one is
        created with the FAQ schema. Returns the line printed. */
    method CreateIndex() returns (line: string)
      modifies this
      ensures IndexName in old(indexes) ==> indexes == old(indexes) && line == "✅ 索引已存在"
      ensures IndexName !in old(indexes) ==>
                indexes == old(indexes)[IndexName := FaqSchema] && line == "✅ 已创建向量索引"
      ensures hashes == old(hashes) && sent == old(sent)
    {
      if IndexName in indexes {
        line := "✅ 索引已存在";
      } else {
        indexes := indexes[IndexName := FaqSchema];
        line := "✅ 已创建向量索引";
      }
    }

    /** `insert_faq(doc)`: one call to the service, then on an OK status one
        `HSET` under `faq:<request id>`; on any other status nothing is
        written and no error is raised. Returns the line printed. */
    method InsertFaq(doc: FaqRecord, embed: (nat, string) -> EmbedResponse) returns (line: string)
      modifies this
      ensures sent == old(sent) + [EmbeddingText(doc)]
      ensures hashes == InsertStep(old(hashes), embed(|old(sent)|, EmbeddingText(doc)), doc)
      ensures indexes == old(indexes)
      ensures var resp := embed(|old(sent)|, EmbeddingText(doc));
              line == if resp.statusCode == StatusOk
                      then "✅ 已写入 Redis, key=" + FaqKey(resp.requestId)
                      else "❌ Embedding 调用失败: " + resp.code + ", " + resp.message
    {
      var textForEmbedding := doc.question + " " + doc.answer;
      var resp := embed(|sent|, textForEmbedding);
      sent := sent + [textForEmbedding];
      if resp.statusCode == StatusOk {
        var key := KeyPrefix + resp.requestId;
        hashes := HSet(hashes, key, FaqFields(doc, resp.embedding));
        line := "✅ 已写入 Redis, key=" + key;
      } else {
        line := "❌ Embedding 调用失败: " + resp.code + ", " + resp.message;
      }
    }

    /** `insert_from_file` with the file's parsed records as input: one
        `insert_faq` per record, in file order. */
    method InsertFromFile(docs: seq<FaqRecord>, embed: (nat, string) -> EmbedResponse)
      modifies this
      ensures sent == old(sent) + EmbeddingTexts(docs)
      ensures hashes == InsertAll(old(hashes), embed, |old(sent)|, docs)
      ensures indexes == old(indexes)
    {
      ghost var n := |sent|;
      for i := 0 to |docs|
        invariant sent == old(sent) + EmbeddingTexts(docs[..i])
        invariant hashes == InsertAll(old(hashes), embed, n, docs[..i])
        invariant indexes == old(indexes)
      {
        assert docs[..i + 1][..i] == docs[..i];
        assert EmbeddingTexts(docs[..i + 1]) == EmbeddingTexts(docs[..i]) + [EmbeddingText(docs[i])];
        assert ResponseFor(embed, n, docs[..i + 1], i) == embed(|sent|, EmbeddingText(docs[i]));
        var _ := InsertFaq(docs[i], embed);
      }
      assert docs[..|docs|] == docs;
    }
  }
}
