/** What the engine's operations do and show, spelled out on the buffer and the segments (`Upsert`, `Delete`, `Flush`
    and the newest-wins lookup in internal/index/index.go). */
module StoreEffects {
  import opened Documents
  import opened Store

  /** An upsert is refused exactly if the buffer holds the document in the same or a newer version; otherwise it is
      buffered, and a buffer that has reached its limit becomes the newest segment. */
  lemma UpsertEffect(s: State, doc: Document)
    ensures
      var (s', status) := Upserted(s, doc);
      var buffer := s.buffer[doc.id := doc];
      if doc.id in s.buffer && doc.version <= s.buffer[doc.id].version then s' == s && status == VersionConflict
      else
        && status == Done && View(s') == View(s)[doc.id := doc] && s'.maxMutable == s.maxMutable
        && if |s.buffer.Keys + {doc.id}| < s.maxMutable then s'.segments == s.segments && s'.buffer == buffer
           else s'.segments == s.segments + [buffer] && s'.buffer == map[]
  {
    var buffer := s.buffer[doc.id := doc];
    assert buffer.Keys == s.buffer.Keys + {doc.id} && |buffer| == |buffer.Keys| && doc.id in buffer;
    BufferedWriteShows(s, doc.id, doc);
    FlushKeepsView(s.(buffer := buffer));
    hide View;
  }

  /** A deletion looks for the newest copy; it is refused if there is none, or in the same or a newer version, and
      otherwise buffers that copy marked as deleted, in the new version and with the time of the deletion, and nothing
      else changed. */
  lemma DeleteEffect(s: State, id: string, version: nat, now: int)
    ensures
      var (s', status) := Deleted(s, id, version, now);
      if id !in View(s) then s' == s && status == NotFound
      else if version <= View(s)[id].version then s' == s && status == VersionConflict
      else
        var d := View(s)[id];
        var t := Document(d.id, d.tenant, d.collection, d.fields, version, d.schemaVersion, true, d.createdAt, now);
        && status == Done && View(s') == View(s)[id := t]
        && s' == State(s.segments, s.buffer[id := t], s.maxMutable)
  {
    if id in View(s) {
      BufferedWriteShows(s, id, Tombstone(View(s)[id], version, now));
    }
    hide View;
  }

  /** A flush turns a nonempty buffer into the newest segment and changes nothing that is shown. */
  lemma FlushEffect(s: State)
    ensures View(Flushed(s)) == View(s)
    ensures Flushed(s) ==
      if s.buffer == map[] then s else State(s.segments + [s.buffer], map[], s.maxMutable)
  {
    FlushKeepsView(s);
    hide View;
  }

  ghost predicate NewestAt(segments: seq<map<string, Document>>, id: string, i: nat)
  {
    i < |segments| && id in segments[i] && forall j :: i < j < |segments| ==> id !in segments[j]
  }

  lemma {:induction false} LayeredMeans(segments: seq<map<string, Document>>, id: string)
    ensures id in Layered(segments) <==> exists i: nat :: NewestAt(segments, id, i)
    ensures forall i: nat :: NewestAt(segments, id, i) ==> Layered(segments)[id] == segments[i][id]
    decreases |segments|
  {
    if segments != [] {
      var k := |segments| - 1;
      var rest := segments[..k];
      LayeredMeans(rest, id);
      if id in segments[k] {
        assert NewestAt(segments, id, k);
      } else {
        forall i: nat
          ensures NewestAt(rest, id, i) <==> NewestAt(segments, id, i)
        {
        }
      }
    }
  }

  /** What is shown: a document's copy in the buffer, or else in the newest segment that has one. */
  lemma ViewMeans(s: State, id: string)
    ensures id in View(s) <==> id in s.buffer || exists i: nat :: NewestAt(s.segments, id, i)
    ensures id in s.buffer ==> View(s)[id] == s.buffer[id]
    ensures forall i: nat :: id !in s.buffer && NewestAt(s.segments, id, i) ==> View(s)[id] == s.segments[i][id]
  {
    LayeredMeans(s.segments, id);
    hide Layered, NewestAt;
  }
}
