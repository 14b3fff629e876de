/**
 * The client-side tiddler record of fnt.js: its fields, the projection toJSON sends
 * to the server, and the in-place update fromJSON makes from the server's answer.
 */
module Tiddlers {
  import opened Wrappers
  import opened Timestamps
  import opened Addressing

  /** The five properties toJSON places in the dictionary it serialises. */
  datatype WireTiddler = WireTiddler(
    title: string,
    text: Option<string>,
    tags: Option<seq<string>>,
    contentType: Option<string>,
    fields: Option<map<string, string>>)

  /**
   * The dictionary jQuery hands to fromJSON, decoded from the server's JSON answer.
   * `title`, `bag` and `recipe` are what the server also reports; fromJSON ignores them.
   */
  datatype ServerDict = ServerDict(
    title: Option<string>,
    bag: Option<string>,
    recipe: Option<string>,
    text: Option<string>,
    render: Option<string>,
    tags: Option<seq<string>>,
    contentType: Option<string>,
    fields: Option<map<string, string>>,
    modifier: Option<string>,
    modified: Option<string>,
    creator: Option<string>,
    created: Option<string>,
    revision: Option<int>)

  /**
   * Every property a tiddler object has, as a value. `modfied` is the misspelt property
   * the constructor creates; `modified` is the one fromJSON writes.
   */
  datatype TiddlerRecord = TiddlerRecord(
    title: string,
    host: Option<string>,
    bag: Option<string>,
    recipe: Option<string>,
    modifier: Option<string>,
    modfied: Option<Date>,
    modified: Option<Date>,
    creator: Option<string>,
    created: Option<Date>,
    text: Option<string>,
    render: Option<string>,
    contentType: Option<string>,
    revision: Option<int>,
    tags: Option<seq<string>>,
    fields: Option<map<string, string>>)

  /** The record of a tiddler just built with `new tiddlyweb.Tiddler(title)`. */
  function NewRecord(title: string): TiddlerRecord {
    TiddlerRecord(title, None, None, None, None, None, None, None, None, None, None, None, None, Some([]), Some(map[]))
  }

  /** toJSON before serialisation: the client-owned content of a tiddler. */
  function Project(t: TiddlerRecord): WireTiddler {
    WireTiddler(t.title, t.text, t.tags, t.contentType, t.fields)
  }

  /** uri() of a tiddler record. */
  function RecordUri(t: TiddlerRecord): Result<string, UriError> {
    TiddlerUri(t.host, t.bag, t.recipe, t.title)
  }

  /** A server answer that repeats the content the client sent. */
  predicate Echoes(d: ServerDict, w: WireTiddler) {
    d.text == w.text && d.tags == w.tags && d.contentType == w.contentType && d.fields == w.fields
  }

  /**
   * The effect of fromJSON: the record afterwards, and whether it stopped with a
   * TypeError, which `timestampToDate(undefined)` raises (`undefined.substr`) when the
   * answer has no `modified`, or no `created`: the assignments before it have happened.
   */
  datatype Absorbed = Absorbed(record: TiddlerRecord, threw: bool)

  /** fromJSON, assignment by assignment. */
  function Absorb(t: TiddlerRecord, d: ServerDict): Absorbed {
    var t1 := t.(text := d.text, render := d.render, tags := d.tags, contentType := d.contentType,
                 fields := d.fields, modifier := d.modifier);
    if d.modified.None? then Absorbed(t1, true)
    else
      var t2 := t1.(modified := Some(TimestampToDate(d.modified.value)), creator := d.creator);
      if d.created.None? then Absorbed(t2, true)
      else Absorbed(t2.(created := Some(TimestampToDate(d.created.value)), revision := d.revision), false)
  }

  /** A new tiddler has its title, no tags, no fields, and nothing else set. */
  lemma NewRecordFields(title: string)
    ensures NewRecord(title).title == title
    ensures NewRecord(title).tags == Some([]) && NewRecord(title).fields == Some(map[])
    ensures RecordUri(NewRecord(title)) == Err(HostRequired)
    ensures Project(NewRecord(title)) == WireTiddler(title, None, Some([]), None, Some(map[]))
  {
  }

  /**
   * toJSON sends exactly the title, text, tags, type and fields: two tiddlers project
   * alike if and only if they agree on those five, whatever their server-owned parts.
   */
  lemma ProjectExactly(t: TiddlerRecord, u: TiddlerRecord)
    ensures Project(t) == Project(u) <==>
      t.title == u.title && t.text == u.text && t.tags == u.tags && t.contentType == u.contentType && t.fields == u.fields
  {
  }

  /** fromJSON never touches the addressing fields, so a tiddler keeps its URI across a read. */
  lemma AbsorbKeepsAddress(t: TiddlerRecord, d: ServerDict)
    ensures Absorb(t, d).record.title == t.title && Absorb(t, d).record.host == t.host
    ensures Absorb(t, d).record.bag == t.bag && Absorb(t, d).record.recipe == t.recipe
    ensures RecordUri(Absorb(t, d).record) == RecordUri(t)
  {
  }

  /**
   * fromJSON completes exactly when the answer has both timestamps, and then every
   * server-managed field holds the answer's value, the timestamps decoded.
   */
  lemma AbsorbComplete(t: TiddlerRecord, d: ServerDict)
    ensures !Absorb(t, d).threw <==> d.modified.Some? && d.created.Some?
    ensures !Absorb(t, d).threw ==> Absorb(t, d).record == t.(
      text := d.text, render := d.render, tags := d.tags, contentType := d.contentType, fields := d.fields,
      modifier := d.modifier, modified := Some(TimestampToDate(d.modified.value)), creator := d.creator,
      created := Some(TimestampToDate(d.created.value)), revision := d.revision)
  {
  }

  /** The content fields come before the timestamps, so even a read that throws has copied them. */
  lemma AbsorbCopiesContent(t: TiddlerRecord, d: ServerDict)
    ensures Absorb(t, d).record.text == d.text && Absorb(t, d).record.render == d.render
    ensures Absorb(t, d).record.tags == d.tags && Absorb(t, d).record.contentType == d.contentType
    ensures Absorb(t, d).record.fields == d.fields && Absorb(t, d).record.modifier == d.modifier
  {
  }

  /** A read that completes overwrites everything but the addressing fields (and `modfied`). */
  lemma AbsorbForgetsOldContent(t: TiddlerRecord, u: TiddlerRecord, d: ServerDict)
    requires d.modified.Some? && d.created.Some?
    requires t.title == u.title && t.host == u.host && t.bag == u.bag && t.recipe == u.recipe && t.modfied == u.modfied
    ensures Absorb(t, d) == Absorb(u, d)
  {
  }

  /**
   * The round trip: when the server answers with the content toJSON sent, reading the
   * answer back leaves that content (and the title) as it was.
   */
  lemma EchoRoundTrip(t: TiddlerRecord, d: ServerDict)
    requires Echoes(d, Project(t))
    ensures Project(Absorb(t, d).record) == Project(t)
  {
  }

  /** Reading the same answer twice has the effect of reading it once. */
  lemma AbsorbIdempotent(t: TiddlerRecord, d: ServerDict)
    ensures Absorb(Absorb(t, d).record, d) == Absorb(t, d)
  {
  }

  /** A tiddler object, with the properties the source's constructor creates. */
  class Tiddler {
    var title: string
    var host: Option<string>
    var bag: Option<string>
    var recipe: Option<string>
    var modifier: Option<string>
    var modfied: Option<Date>
    var modified: Option<Date>
    var creator: Option<string>
    var created: Option<Date>
    var text: Option<string>
    var render: Option<string>
    var contentType: Option<string>
    var revision: Option<int>
    var tags: Option<seq<string>>
    var fields: Option<map<string, string>>

    /** The object's properties as a value. */
    function Record(): TiddlerRecord
      reads this
    {
      TiddlerRecord(title, host, bag, recipe, modifier, modfied, modified, creator, created,
                    text, render, contentType, revision, tags, fields)
    }

    /** `new tiddlyweb.Tiddler(title)`. */
    constructor (title: string)
      ensures Record() == NewRecord(title)
    {
      this.title := title;
      host := None;
      bag := None;
      recipe := None;
      modifier := None;
      modfied := None;
      // the constructor never creates `modified`; reading it gives undefined
      modified := None;
      creator := None;
      created := None;
      text := None;
      render := None;
      contentType := None;
      revision := None;
      tags := Some([]);
      fields := Some(map[]);
    }

    /** uri(): the tiddler's resource URI, or the configuration error it reports. */
    function Uri(): (r: Result<string, UriError>)
      reads this
      ensures r == RecordUri(Record())
    {
      TiddlerUri(host, bag, recipe, title)
    }

    /** toJSON(), before JSON.stringify. */
    function ToJson(): (w: WireTiddler)
      reads this
      ensures w == Project(Record())
    {
      WireTiddler(title, text, tags, contentType, fields)
    }

    /**
     * fromJSON(tiddlerDict). `completed` is false when the source would have thrown
     * a TypeError part-way, for want of `modified` or `created` in the answer.
     */
    method FromJson(d: ServerDict) returns (completed: bool)
      modifies this
      ensures Record() == Absorb(old(Record()), d).record
      ensures completed == !Absorb(old(Record()), d).threw
      ensures title == old(title) && host == old(host) && bag == old(bag) && recipe == old(recipe)
      ensures Uri() == old(Uri())
      ensures Echoes(d, old(ToJson())) ==> ToJson() == old(ToJson())
    {
      CopyContent(d);
      completed := false;
      if d.modified.None? {
        // timestampToDate(undefined) throws a TypeError
        return;
      }
      SetModified(d.modified.value, d.creator);
      if d.created.None? {
        return;
      }
      SetCreated(d.created.value, d.revision);
      completed := true;
    }

    /** The first six assignments of fromJSON, which cannot fail. */
    method CopyContent(d: ServerDict)
      modifies this
      ensures Record() == old(Record()).(text := d.text, render := d.render, tags := d.tags,
        contentType := d.contentType, fields := d.fields, modifier := d.modifier)
    {
      ghost var before := Record();
      text := d.text;
      render := d.render;
      tags := d.tags;
      contentType := d.contentType;
      fields := d.fields;
      modifier := d.modifier;
      assert Record() == before.(text := d.text, render := d.render, tags := d.tags,
        contentType := d.contentType, fields := d.fields, modifier := d.modifier);
    }

    /** `modified` from the answer's timestamp, then `creator`. */
    method SetModified(stamp: string, creator: Option<string>)
      modifies this
      ensures Record() == old(Record()).(modified := Some(TimestampToDate(stamp)), creator := creator)
    {
      modified := Some(TimestampToDate(stamp));
      this.creator := creator;
    }

    /** `created` from the answer's timestamp, then `revision`. */
    method SetCreated(stamp: string, revision: Option<int>)
      modifies this
      ensures Record() == old(Record()).(created := Some(TimestampToDate(stamp)), revision := revision)
    {
      created := Some(TimestampToDate(stamp));
      this.revision := revision;
    }
  }
}
