/** The reader: of the documents in a YAML stream, keep the
    CustomResourceDefinitions, in stream order (ts/reader/yaml.ts). */
module YamlReader {
  import opened JsValues
  import opened SeqFacts

  const CrdApiVersion := "apiextensions.k8s.io/v1"
  const CrdKind := "CustomResourceDefinition"

  /** `isCRD(doc)`: a truthy, non-null object holding both keys, with the
      v1 API version and the CRD kind. Arrays are objects to `typeof`, but
      have neither key. */
  predicate IsCRD(doc: Value): (accepted: bool)
    ensures accepted <==> doc.Obj? && Get(doc.members, "apiVersion") == Some(Str(CrdApiVersion))
                                   && Get(doc.members, "kind") == Some(Str(CrdKind))
  {
    Truthy(doc)
    && (doc.Obj? || doc.Arr?)
    && doc != Null
    && doc.Obj? && HasKey(doc.members, "apiVersion")
    && HasKey(doc.members, "kind")
    && Get(doc.members, "apiVersion") == Some(Str(CrdApiVersion))
    && Get(doc.members, "kind") == Some(Str(CrdKind))
  }

  /** The documents that pass `isCRD`, in their original order. */
  function CrdDocuments(documents: seq<Value>): (crds: seq<Value>)
    ensures |crds| <= |documents|
    ensures forall i | 0 <= i < |crds| :: IsCRD(crds[i])
  {
    if documents == [] then []
    else
      var last := documents[|documents| - 1];
      CrdDocuments(documents[..|documents| - 1]) + (if IsCRD(last) then [last] else [])
  }

  /** `parseContent`: load every document of the stream, then push each one
      that passes `isCRD`. The YAML loader is a parameter. */
  method ParseContent(loadAll: string -> seq<Value>, content: string) returns (crds: seq<Value>)
    ensures crds == CrdDocuments(loadAll(content))
  {
    var documents := loadAll(content);
    crds := [];
    for i := 0 to |documents|
      invariant crds == CrdDocuments(documents[..i])
    {
      var doc := documents[i];
      assert documents[..i + 1][..i] == documents[..i];
      if IsCRD(doc) {
        crds := crds + [doc];
      }
    }
    assert documents[..|documents|] == documents;
  }

  /** The filter distributes over concatenation: each document is kept or
      dropped on its own, so the order of the stream is kept. */
  lemma {:induction false} CrdDocumentsAppend(a: seq<Value>, b: seq<Value>)
    ensures CrdDocuments(a + b) == CrdDocuments(a) + CrdDocuments(b)
  {
    if b == [] {
      assert a + b == a;
    } else {
      var front, last := b[..|b| - 1], b[|b| - 1];
      CrdDocumentsAppend(a, front);
      assert (a + b)[..|a + b| - 1] == a + front;
      var tail: seq<Value> := if IsCRD(last) then [last] else [];
      assert CrdDocuments(a + b) == CrdDocuments(a + front) + tail;
      assert CrdDocuments(b) == CrdDocuments(front) + tail;
      assert CrdDocuments(a) + CrdDocuments(front) + tail == CrdDocuments(a) + (CrdDocuments(front) + tail);
    }
  }

  /** Filtering the result again changes nothing. */
  lemma {:induction false} CrdDocumentsIdempotent(documents: seq<Value>)
    ensures CrdDocuments(CrdDocuments(documents)) == CrdDocuments(documents)
  {
    if documents != [] {
      var front, last := documents[..|documents| - 1], documents[|documents| - 1];
      CrdDocumentsIdempotent(front);
      var tail: seq<Value> := if IsCRD(last) then [last] else [];
      CrdDocumentsAppend(CrdDocuments(front), tail);
      assert CrdDocuments(tail) == tail by {
        if tail != [] {
          assert tail[..0] == [];
        }
      }
    }
  }

  /** A document is in the result iff it is in the stream and is a CRD. */
  lemma {:induction false} CrdDocumentsMembership(documents: seq<Value>, d: Value)
    ensures d in CrdDocuments(documents) <==> d in documents && IsCRD(d)
  {
    if documents != [] {
      var front, last := documents[..|documents| - 1], documents[|documents| - 1];
      CrdDocumentsMembership(front, d);
      SplitLast(documents);
    }
  }

  /** A stream of CRDs only comes back whole. */
  lemma {:induction false} CrdDocumentsAllKept(documents: seq<Value>)
    requires forall i | 0 <= i < |documents| :: IsCRD(documents[i])
    ensures CrdDocuments(documents) == documents
  {
    if documents != [] {
      var front, last := documents[..|documents| - 1], documents[|documents| - 1];
      assert forall i | 0 <= i < |front| :: IsCRD(front[i]) by {
        forall i | 0 <= i < |front| ensures IsCRD(front[i]) {
          assert front[i] == documents[i];
        }
      }
      CrdDocumentsAllKept(front);
      SplitLast(documents);
    }
  }

  /** A stream comes back empty iff it holds no CRD. */
  lemma CrdDocumentsNoneKept(documents: seq<Value>)
    ensures CrdDocuments(documents) == [] <==> forall i | 0 <= i < |documents| :: !IsCRD(documents[i])
  {
    var crds := CrdDocuments(documents);
    if crds != [] {
      CrdDocumentsMembership(documents, crds[0]);
      var i :| 0 <= i < |documents| && documents[i] == crds[0];
    }
    if i :| 0 <= i < |documents| && IsCRD(documents[i]) {
      CrdDocumentsMembership(documents, documents[i]);
    }
  }

  /** Null, scalars and arrays (including an empty stream's lone `null`)
      are never taken for a CRD, nor is a v1beta1 CRD. */
  lemma NonObjectsRejected(v: Value, members: seq<Member>)
    requires !v.Obj?
    ensures !IsCRD(v)
    ensures !IsCRD(Obj([Member("apiVersion", Str("apiextensions.k8s.io/v1beta1")), Member("kind", Str(CrdKind))] + members))
  {
  }

  /** A minimal v1 CRD is accepted, whatever keys follow. */
  lemma MinimalCrdAccepted(rest: seq<Member>)
    ensures IsCRD(Obj([Member("apiVersion", Str(CrdApiVersion)), Member("kind", Str(CrdKind))] + rest))
  {
    var members := [Member("apiVersion", Str(CrdApiVersion)), Member("kind", Str(CrdKind))] + rest;
    assert members[1..] == [Member("kind", Str(CrdKind))] + rest;
  }
}
