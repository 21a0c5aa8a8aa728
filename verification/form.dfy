/**
  The per-transaction form decoder (libwebsockets' `lws_spa`), seen only
  through what it decides. The library itself is not part of this model: a
  `Library` value states which bodies it accepts and what value it finally
  reports for each field name, and a decoder instance remembers the body
  bytes it has been fed so far.
 */
module Form {
  import opened Wrappers

  newtype byte = x: int | 0 <= x < 256

  /** Field names handed to the decoder at creation; position fixes the field's index. */
  const ParamNames: seq<string> := ["state"]

  /** Index of the `state` field among `ParamNames`. */
  const StateIndex: nat := 0

  /**
    The decoding library's observable decisions:
    `accepts(b)` holds when the body prefix `b` decodes without a parse
    error and within the 1024-byte budget the decoder is created with; `value(b, name)` is what the finalized
    decoder reports for field `name` of body `b`, `None` when the field never
    appeared (distinct from `Some("")`, present but empty).
   */
  datatype Library = Library(
    accepts: seq<byte> -> bool,
    value: (seq<byte>, string) -> Option<string>)

  /** A live decoder: the body bytes it has consumed so far. */
  datatype Spa = Spa(received: seq<byte>)

  /** An incremental parser reports an error as soon as the prefix it has is bad. */
  ghost predicate PrefixClosed(accepts: seq<byte> -> bool)
  {
    forall s: seq<byte>, t: seq<byte> :: accepts(s + t) ==> accepts(s)
  }

  /** `lws_spa_create` when the allocation succeeds: nothing consumed yet. */
  function Create(): (spa: Spa)
    ensures spa.received == []
  {
    Spa([])
  }

  /** `lws_spa_process`: consume one more chunk, or report a parse error. */
  function Process(lib: Library, spa: Spa, chunk: seq<byte>): (r: Option<Spa>)
    ensures r.Some? <==> lib.accepts(spa.received + chunk)
    ensures r.Some? ==> r.value.received == spa.received + chunk
  {
    var body := spa.received + chunk;
    if lib.accepts(body) then Some(Spa(body)) else None
  }

  /** `lws_spa_finalize` followed by `lws_spa_get_string` for every field index. */
  function Finalize(lib: Library, spa: Spa): (fields: seq<Option<string>>)
    ensures |fields| == |ParamNames|
    ensures forall i :: 0 <= i < |fields| ==> fields[i] == lib.value(spa.received, ParamNames[i])
  {
    seq(|ParamNames|, i requires 0 <= i < |ParamNames| => lib.value(spa.received, ParamNames[i]))
  }

  /** The bytes of a body delivered as a sequence of chunks. */
  function Concat(chunks: seq<seq<byte>>): seq<byte>
  {
    if chunks == [] then [] else chunks[0] + Concat(chunks[1..])
  }

  /** One `lws_spa_process` call per chunk, stopping at the first parse error. */
  function FeedAll(lib: Library, spa: Spa, chunks: seq<seq<byte>>): (r: Option<Spa>)
    ensures r.Some? ==> r.value.received == spa.received + Concat(chunks)
    decreases |chunks|
  {
    if chunks == [] then Some(spa)
    else
      match Process(lib, spa, chunks[0])
      case None => None
      case Some(next) =>
        var r := FeedAll(lib, next, chunks[1..]);
        assert r.Some? ==> r.value.received == spa.received + (chunks[0] + Concat(chunks[1..]));
        r
  }

  /**
    Feeding a body in any non-empty sequence of chunks decides exactly as
    feeding it in one piece, provided the library rejects a body as soon as a
    prefix of it is bad.
   */
  lemma {:induction false} FeedAllIsOneProcess(lib: Library, spa: Spa, chunks: seq<seq<byte>>)
    requires PrefixClosed(lib.accepts)
    requires |chunks| > 0
    ensures FeedAll(lib, spa, chunks) == Process(lib, spa, Concat(chunks))
    decreases |chunks|
  {
    var head, rest := chunks[0], chunks[1..];
    assert Concat(chunks) == head + Concat(rest);
    if rest == [] {
      assert Concat(chunks) == head;
    } else {
      var whole := spa.received + head + Concat(rest);
      assert spa.received + Concat(chunks) == whole;
      match Process(lib, spa, head)
      case None =>
        assert !lib.accepts(spa.received + head);
        assert !lib.accepts(whole);
      case Some(next) =>
        FeedAllIsOneProcess(lib, next, rest);
        assert next.received + Concat(rest) == whole;
    }
  }

  /**
    A body split in two chunks leaves the decoder exactly as the same body in
    one chunk does (so it finalizes to the same field values), and is rejected
    exactly when the whole body is.
   */
  lemma SplitBodyDecodesAlike(lib: Library, spa: Spa, a: seq<byte>, b: seq<byte>)
    requires PrefixClosed(lib.accepts)
    ensures FeedAll(lib, spa, [a, b]) == Process(lib, spa, a + b)
    ensures FeedAll(lib, spa, [a, b]).Some? <==> lib.accepts(spa.received + a + b)
  {
    FeedAllIsOneProcess(lib, spa, [a, b]);
    assert Concat([a, b]) == a + b by {
      assert Concat([a, b]) == a + Concat([b]);
      assert Concat([b]) == b + Concat([]);
    }
    assert spa.received + (a + b) == spa.received + a + b;
  }

  /**
    The field values a fresh decoder reports after an accepted body has been
    fed in any non-empty sequence of chunks are the library's values for the
    whole body: chunk boundaries never show in a decoded field.
   */
  lemma ChunkedBodyFinalizesAlike(lib: Library, chunks: seq<seq<byte>>)
    requires PrefixClosed(lib.accepts)
    requires |chunks| > 0
    requires lib.accepts(Concat(chunks))
    ensures FeedAll(lib, Create(), chunks).Some?
    ensures forall i :: 0 <= i < |ParamNames| ==>
              Finalize(lib, FeedAll(lib, Create(), chunks).value)[i] == lib.value(Concat(chunks), ParamNames[i])
  {
    FeedAllIsOneProcess(lib, Create(), chunks);
    assert [] + Concat(chunks) == Concat(chunks);
  }
}
