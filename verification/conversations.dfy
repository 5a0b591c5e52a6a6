/**
 The session and the conversation store: `save_conversation`,
 `load_conversation`, `delete_conversation` and `get_saved_conversations`.

 The `conversations` directory is an in-memory map from file name to the
 JSON object stored in the file. A field of a stored object is `None` when
 the key is absent from the file, which is how a file not written by this
 application can differ from one that was. The clock is a parameter (`now`,
 the formatted timestamp) and so is the order in which the directory lists
 its files.
 */
module Conversations {
  import opened Optional
  import opened Text
  import opened Segmenter

  datatype Role = System | User | Assistant

  /** One entry of the transcript, `{"role": ..., "content": ...}`. */
  datatype Message = Message(role: Role, content: string)

  /**
   The per-browser session state: the transcript, both fragment maps and the
   id of the conversation file the transcript is saved to, once it has one.
   */
  datatype Session = Session(
    messages: seq<Message>,
    codeBlocks: map<string, CodeBlock>,
    latexBlocks: map<string, string>,
    conversationId: Option<string>)

  /** The JSON object of a conversation file; a field is `None` when its key is absent. */
  datatype Record = Record(
    messages: Option<seq<Message>>,
    codeBlocks: Option<map<string, CodeBlock>>,
    latexBlocks: Option<map<string, string>>,
    timestamp: Option<string>,
    title: Option<string>)

  /** The `conversations` directory: missing, or its files by name. */
  datatype Store = NoDirectory | Directory(files: map<string, Record>)

  const Folder := "conversations"
  const FilePrefix := "conversation_"
  const JsonSuffix := ".json"
  /** Characters of the first user message kept in a title. */
  const TitleLength := 30
  const Ellipsis := "..."

  /** The name of the file holding conversation `id`: the id between the prefix and `.json`. */
  function FileName(id: string): (name: string)
    ensures StartsWith(name, FilePrefix) && EndsWith(name, JsonSuffix)
    ensures |name| == |FilePrefix| + |id| + |JsonSuffix|
    ensures name[|FilePrefix|..|name| - |JsonSuffix|] == id
  {
    var name := FilePrefix + id + JsonSuffix;
    assert name[..|FilePrefix|] == FilePrefix;
    assert name[|name| - |JsonSuffix|..] == JsonSuffix;
    name
  }

  /** The path of a file of the directory, as `open` receives it. */
  function FilePath(name: string): string {
    Folder + "/" + name
  }

  /** Different ids name different files. */
  lemma FileNameInjective(a: string, b: string)
    ensures FileName(a) == FileName(b) ==> a == b
  {
    if FileName(a) == FileName(b) {
      assert a == FileName(a)[|FilePrefix|..|FileName(a)| - |JsonSuffix|];
      assert b == FileName(b)[|FilePrefix|..|FileName(b)| - |JsonSuffix|];
    }
  }

  // ---------------------------------------------------------------------------
  // Title
  // ---------------------------------------------------------------------------

  /** Python's `s[:n]`: the first `n` characters, or all of them when there are fewer. */
  function Take(s: string, n: nat): (r: string)
    ensures |r| == if |s| < n then |s| else n
    ensures StartsWith(s, r)
  {
    if |s| <= n then s else s[..n]
  }

  /** The position of the first user message at or after `i`. */
  function FirstUserFrom(messages: seq<Message>, i: nat): (r: Option<nat>)
    requires i <= |messages|
    ensures r.Some? ==> i <= r.value < |messages| && messages[r.value].role == User
    ensures r.Some? ==> forall j :: i <= j < r.value ==> messages[j].role != User
    ensures r.None? ==> forall j :: i <= j < |messages| ==> messages[j].role != User
    decreases |messages| - i
  {
    if i == |messages| then None
    else if messages[i].role == User then Some(i)
    else FirstUserFrom(messages, i + 1)
  }

  /**
   The title of a saved conversation: the first 30 characters of the first
   user message followed by "..." (whatever its length), or the id when the
   transcript holds no user message.
   */
  function Title(messages: seq<Message>, id: string): (t: string)
    ensures (forall j :: 0 <= j < |messages| ==> messages[j].role != User) ==> t == id
    ensures forall i :: 0 <= i < |messages| && messages[i].role == User
                          && (forall j :: 0 <= j < i ==> messages[j].role != User) ==>
              && EndsWith(t, Ellipsis)
              && t[..|t| - |Ellipsis|] == Take(messages[i].content, TitleLength)
  {
    match FirstUserFrom(messages, 0)
    case None => id
    case Some(i) =>
      var t := Take(messages[i].content, TitleLength) + Ellipsis;
      assert t[..|t| - |Ellipsis|] == Take(messages[i].content, TitleLength);
      assert t[|t| - |Ellipsis|..] == Ellipsis;
      t
  }

  // ---------------------------------------------------------------------------
  // save_conversation
  // ---------------------------------------------------------------------------

  /** What a save did: nothing, wrote a file (its path), or failed to open the file. */
  datatype SaveOutcome = Skipped | Written(path: string) | WriteFailed

  datatype Saved = Saved(session: Session, store: Store, outcome: SaveOutcome)

  /**
   `after` is `before` with the file `name` written as `record`: that file is
   added or replaced and every other file is kept.
   */
  predicate WroteFile(before: Store, after: Store, name: string, record: Record) {
    && before.Directory? && after.Directory?
    && after.files.Keys == before.files.Keys + {name}
    && name in after.files && after.files[name] == record
    && (forall other :: other in before.files && other != name ==> after.files[other] == before.files[other])
  }

  /** The object `save_conversation` writes for a session under `id`: every key present. */
  function RecordOf(s: Session, id: string): (d: Record)
    ensures d.messages == Some(s.messages) && d.codeBlocks == Some(s.codeBlocks) && d.latexBlocks == Some(s.latexBlocks)
    ensures d.timestamp == Some(id) && d.title == Some(Title(s.messages, id))
  {
    Record(Some(s.messages), Some(s.codeBlocks), Some(s.latexBlocks), Some(id), Some(Title(s.messages, id)))
  }

  /**
   `save_conversation`: a transcript of at most one message is not saved.
   Otherwise the session keeps its id, or takes `now` as its id when it has
   none (before the file is opened), and the conversation is written to the
   file named after the id, replacing that file if it exists. Without the
   directory the file cannot be opened and nothing is written.
   */
  function Save(s: Session, now: string, store: Store): (r: Saved)
    ensures |s.messages| <= 1 ==> r == Saved(s, store, Skipped)
    ensures |s.messages| > 1 ==>
              && r.session.conversationId.Some?
              && (s.conversationId.Some? ==> r.session.conversationId == s.conversationId)
              && (s.conversationId.None? ==> r.session.conversationId == Some(now))
              && r.session == s.(conversationId := r.session.conversationId)
    ensures |s.messages| > 1 && store.NoDirectory? ==> r.store == store && r.outcome == WriteFailed
    ensures |s.messages| > 1 && store.Directory? ==>
              var id := r.session.conversationId.value;
              && r.outcome == Written(FilePath(FileName(id)))
              && WroteFile(store, r.store, FileName(id), RecordOf(s, id))
  {
    if |s.messages| <= 1 then Saved(s, store, Skipped)
    else
      var id := ValueOr(s.conversationId, now);
      var session := s.(conversationId := Some(id));
      var name := FileName(id);
      match store
      case NoDirectory => Saved(session, store, WriteFailed)
      case Directory(files) => Saved(session, Directory(files[name := RecordOf(s, id)]), Written(FilePath(name)))
  }

  // ---------------------------------------------------------------------------
  // load_conversation
  // ---------------------------------------------------------------------------

  /** Why a load stopped: the file could not be opened, or a key was absent. */
  datatype LoadError = FileNotFound | KeyMissing(key: string)

  /** The session after a load, and the error that stopped it, if any. */
  datatype Loaded = Loaded(session: Session, error: Option<LoadError>)

  /**
   `load_conversation` for the file `name` of the directory: the transcript,
   both maps and the id are replaced, in that order, by the stored messages,
   maps and timestamp. A missing key stops the load with the fields before
   it already replaced.
   */
  function Load(s: Session, store: Store, name: string): (r: Loaded)
    ensures r.error == Some(FileNotFound) <==> store.NoDirectory? || name !in store.files
    ensures r.error.None? <==>
              && store.Directory? && name in store.files
              && var d := store.files[name];
                 d.messages.Some? && d.codeBlocks.Some? && d.latexBlocks.Some? && d.timestamp.Some?
    ensures r.error.None? ==>
              var d := store.files[name];
              r.session == Session(d.messages.value, d.codeBlocks.value, d.latexBlocks.value, Some(d.timestamp.value))
    ensures r.error.Some? ==> r.session.conversationId == s.conversationId
    ensures r.error == Some(FileNotFound) ==> r.session == s
    ensures r.error.Some? && r.error.value.KeyMissing? ==>
              && store.Directory? && name in store.files
              && var d := store.files[name];
                 && r.error.value.key in {"messages", "code_blocks", "latex_blocks", "timestamp"}
                 && (r.session.messages == if d.messages.Some? then d.messages.value else s.messages)
                 && (r.session.codeBlocks == if d.messages.Some? && d.codeBlocks.Some? then d.codeBlocks.value else s.codeBlocks)
                 && (r.session.latexBlocks ==
                       if d.messages.Some? && d.codeBlocks.Some? && d.latexBlocks.Some? then d.latexBlocks.value else s.latexBlocks)
    ensures store.Directory? && name in store.files ==>
              var d := store.files[name];
              && (d.messages.None? ==> r.error == Some(KeyMissing("messages")))
              && (d.messages.Some? && d.codeBlocks.None? ==> r.error == Some(KeyMissing("code_blocks")))
              && (d.messages.Some? && d.codeBlocks.Some? && d.latexBlocks.None? ==> r.error == Some(KeyMissing("latex_blocks")))
              && (d.messages.Some? && d.codeBlocks.Some? && d.latexBlocks.Some? && d.timestamp.None? ==>
                    r.error == Some(KeyMissing("timestamp")))
  {
    if store.NoDirectory? || name !in store.files then Loaded(s, Some(FileNotFound))
    else
      var d := store.files[name];
      if d.messages.None? then Loaded(s, Some(KeyMissing("messages")))
      else
        var s1 := s.(messages := d.messages.value);
        if d.codeBlocks.None? then Loaded(s1, Some(KeyMissing("code_blocks")))
        else
          var s2 := s1.(codeBlocks := d.codeBlocks.value);
          if d.latexBlocks.None? then Loaded(s2, Some(KeyMissing("latex_blocks")))
          else
            var s3 := s2.(latexBlocks := d.latexBlocks.value);
            if d.timestamp.None? then Loaded(s3, Some(KeyMissing("timestamp")))
            else Loaded(s3.(conversationId := Some(d.timestamp.value)), None)
  }

  // ---------------------------------------------------------------------------
  // delete_conversation
  // ---------------------------------------------------------------------------

  /** The session and directory after a delete, and the value returned. */
  datatype Deleted = Deleted(session: Session, store: Store, ok: bool)

  /** The session's conversation is stored in the file `name`. */
  predicate IsActive(s: Session, name: string) {
    s.conversationId.Some? && FileName(s.conversationId.value) == name
  }

  /**
   `delete_conversation`: the file is removed and `true` returned; the
   session forgets its id exactly when that file was its own. When the file
   cannot be removed nothing changes and `false` is returned.
   */
  function Delete(s: Session, store: Store, name: string): (r: Deleted)
    ensures r.ok <==> store.Directory? && name in store.files
    ensures !r.ok ==> r.session == s && r.store == store
    ensures r.ok ==>
              && r.store.Directory?
              && r.store.files.Keys == store.files.Keys - {name}
              && (forall other :: other in r.store.files ==> r.store.files[other] == store.files[other])
    ensures r.ok ==> r.session.messages == s.messages && r.session.codeBlocks == s.codeBlocks
                     && r.session.latexBlocks == s.latexBlocks
    ensures r.ok ==> (r.session.conversationId.None? <==> s.conversationId.None? || IsActive(s, name))
    ensures r.session.conversationId.Some? ==> r.session.conversationId == s.conversationId
  {
    match store
    case NoDirectory => Deleted(s, store, false)
    case Directory(files) =>
      if name !in files then Deleted(s, store, false)
      else
        var session := if IsActive(s, name) then s.(conversationId := None) else s;
        Deleted(session, Directory(files - {name}), true)
  }

  // ---------------------------------------------------------------------------
  // get_saved_conversations
  // ---------------------------------------------------------------------------

  /** One line of the sidebar list. */
  datatype Entry = Entry(filename: string, title: string, timestamp: string)

  /** The list entry for a file: a missing title defaults to the file name, a missing timestamp to "". */
  function EntryOf(name: string, d: Record): (e: Entry)
    ensures e.filename == name
    ensures d.title.Some? ==> e.title == d.title.value
    ensures d.title.None? ==> e.title == name
    ensures d.timestamp.Some? ==> e.timestamp == d.timestamp.value
    ensures d.timestamp.None? ==> e.timestamp == ""
  {
    Entry(name, ValueOr(d.title, name), ValueOr(d.timestamp, ""))
  }

  /** No name occurs twice in `names`. */
  predicate Distinct(names: seq<string>) {
    forall i, j :: 0 <= i < j < |names| ==> names[i] != names[j]
  }

  /** No two entries of `es` are for the same file. */
  predicate DistinctFiles(es: seq<Entry>) {
    forall i, j :: 0 <= i < j < |es| ==> es[i].filename != es[j].filename
  }

  /** `listing` names every file of the directory exactly once (what `os.listdir` returns). */
  predicate Enumerates(listing: seq<string>, files: map<string, Record>) {
    && (forall i :: 0 <= i < |listing| ==> listing[i] in files)
    && (forall name :: name in files ==> name in listing)
    && Distinct(listing)
  }

  /** The entries of the `.json` files of `listing`, in listing order. */
  function Entries(listing: seq<string>, files: map<string, Record>): (r: seq<Entry>)
    requires forall i :: 0 <= i < |listing| ==> listing[i] in files
    ensures |r| <= |listing|
    ensures forall k :: 0 <= k < |r| ==>
              && r[k].filename in listing
              && r[k].filename in files
              && EndsWith(r[k].filename, JsonSuffix)
              && r[k] == EntryOf(r[k].filename, files[r[k].filename])
    ensures Distinct(listing) ==> DistinctFiles(r)
    decreases |listing|
  {
    if listing == [] then []
    else
      var rest := Entries(listing[1..], files);
      if EndsWith(listing[0], JsonSuffix) then
        var r := [EntryOf(listing[0], files[listing[0]])] + rest;
        assert Distinct(listing) ==> DistinctFiles(r) by {
          if Distinct(listing) {
            assert Distinct(listing[1..]) by {
              forall i, j | 0 <= i < j < |listing[1..]| ensures listing[1..][i] != listing[1..][j] {
                assert listing[1..][i] == listing[i + 1] && listing[1..][j] == listing[j + 1];
              }
            }
            assert listing[0] !in listing[1..] by {
              forall j | 0 <= j < |listing[1..]| ensures listing[1..][j] != listing[0] {
                assert listing[1..][j] == listing[j + 1];
              }
            }
            forall i, j | 0 <= i < j < |r| ensures r[i].filename != r[j].filename {
              assert r[j] == rest[j - 1];
              if i > 0 {
                assert r[i] == rest[i - 1];
              }
            }
          }
        }
        r
      else
        assert Distinct(listing) ==> Distinct(listing[1..]) by {
          if Distinct(listing) {
            forall i, j | 0 <= i < j < |listing[1..]| ensures listing[1..][i] != listing[1..][j] {
              assert listing[1..][i] == listing[i + 1] && listing[1..][j] == listing[j + 1];
            }
          }
        }
        rest
  }

  /** Every `.json` file of the listing has its entry. */
  lemma {:induction false} EntriesComplete(listing: seq<string>, files: map<string, Record>, i: nat)
    requires forall i :: 0 <= i < |listing| ==> listing[i] in files
    requires i < |listing| && EndsWith(listing[i], JsonSuffix)
    ensures exists k :: 0 <= k < |Entries(listing, files)| && Entries(listing, files)[k].filename == listing[i]
    decreases |listing|
  {
    var r := Entries(listing, files);
    if i == 0 {
      assert r[0].filename == listing[0];
    } else {
      var rest := Entries(listing[1..], files);
      EntriesComplete(listing[1..], files, i - 1);
      var k :| 0 <= k < |rest| && rest[k].filename == listing[1..][i - 1];
      if EndsWith(listing[0], JsonSuffix) {
        assert r[k + 1] == rest[k];
      } else {
        assert r[k] == rest[k];
      }
    }
  }

  /** Timestamps never increase along `es` (Python's string order). */
  predicate Descending(es: seq<Entry>) {
    forall i, j :: 0 <= i < j < |es| ==> !LexLess(es[i].timestamp, es[j].timestamp)
  }

  /** "Not smaller than" is transitive on strings. */
  lemma NotLessTransitive(a: string, b: string, c: string)
    requires !LexLess(a, b) && !LexLess(b, c)
    ensures !LexLess(a, c)
  {
    if LexLess(a, c) && b != c {
      LexLessTotal(b, c);
      LexLessTransitive(a, c, b);
    }
  }

  /** No entry of `es` has a timestamp above `t`. */
  predicate Below(t: string, es: seq<Entry>) {
    forall k :: 0 <= k < |es| ==> !LexLess(t, es[k].timestamp)
  }

  /** A descending list is its head above a descending tail. */
  lemma DescendingSplit(es: seq<Entry>)
    requires es != []
    ensures Descending(es) <==> Below(es[0].timestamp, es[1..]) && Descending(es[1..])
  {
    if Below(es[0].timestamp, es[1..]) && Descending(es[1..]) {
      forall i, j | 0 <= i < j < |es| ensures !LexLess(es[i].timestamp, es[j].timestamp) {
        if i == 0 {
          assert es[j] == es[1..][j - 1];
        } else {
          assert es[i] == es[1..][i - 1] && es[j] == es[1..][j - 1];
        }
      }
    }
  }

  /** An entry not below the head of a descending list is above all of it. */
  lemma BelowHead(t: string, es: seq<Entry>)
    requires es != [] && Descending(es) && !LexLess(t, es[0].timestamp)
    ensures Below(t, es)
  {
    forall k | 0 < k < |es| ensures !LexLess(t, es[k].timestamp) {
      NotLessTransitive(t, es[0].timestamp, es[k].timestamp);
    }
  }

  /** Bounds carry over between lists with the same entries. */
  lemma BelowPermutation(t: string, es: seq<Entry>, rs: seq<Entry>)
    requires multiset(rs) == multiset(es) && Below(t, es)
    ensures Below(t, rs)
  {
    forall k | 0 <= k < |rs| ensures !LexLess(t, rs[k].timestamp) {
      assert rs[k] in multiset(es);
      var m :| 0 <= m < |es| && es[m] == rs[k];
    }
  }

  /** An entry not below the head of a descending list can go in front of it. */
  lemma ConsAboveHead(e: Entry, es: seq<Entry>)
    requires Descending(es) && (es == [] || !LexLess(e.timestamp, es[0].timestamp))
    ensures Descending([e] + es)
  {
    var r := [e] + es;
    assert r[1..] == es;
    if es != [] {
      BelowHead(e.timestamp, es);
    }
    DescendingSplit(r);
  }

  /**
   An entry above a list and above `e` can go in front of any descending
   arrangement of the list with `e` added.
   */
  lemma ConsAboveInserted(x: Entry, tail: seq<Entry>, e: Entry, rest: seq<Entry>)
    requires Below(x.timestamp, tail) && !LexLess(x.timestamp, e.timestamp)
    requires multiset(rest) == multiset(tail) + multiset{e} && Descending(rest)
    ensures Descending([x] + rest)
  {
    var r := [x] + rest;
    assert r[1..] == rest;
    var grown := tail + [e];
    assert Below(x.timestamp, grown) by {
      forall k | 0 <= k < |grown| ensures !LexLess(x.timestamp, grown[k].timestamp) {
        if k < |tail| {
          assert grown[k] == tail[k];
        }
      }
    }
    assert multiset(grown) == multiset(tail) + multiset{e};
    BelowPermutation(x.timestamp, grown, rest);
    DescendingSplit(r);
  }

  /**
   Insert `e` into a descending list before the first entry with a strictly
   smaller timestamp, so that it stays behind the entries whose timestamp is
   larger and ahead of those with an equal one.
   */
  function Insert(e: Entry, es: seq<Entry>): (r: seq<Entry>)
    requires Descending(es)
    ensures Descending(r)
    ensures multiset(r) == multiset(es) + multiset{e}
    decreases |es|
  {
    if es == [] || !LexLess(e.timestamp, es[0].timestamp) then
      ConsAboveHead(e, es);
      [e] + es
    else
      DescendingSplit(es);
      var rest := Insert(e, es[1..]);
      assert es == [es[0]] + es[1..];
      LexLessAsymmetric(e.timestamp, es[0].timestamp);
      ConsAboveInserted(es[0], es[1..], e, rest);
      [es[0]] + rest
  }

  /**
   `sorted(entries, key=timestamp, reverse=True)`: the same entries, by
   non-increasing timestamp.
   */
  function SortDescending(es: seq<Entry>): (r: seq<Entry>)
    ensures Descending(r)
    ensures multiset(r) == multiset(es)
    decreases |es|
  {
    if es == [] then []
    else
      assert es == [es[0]] + es[1..];
      Insert(es[0], SortDescending(es[1..]))
  }

  /**
   `get_saved_conversations`: nothing without the directory; otherwise one
   entry per `.json` file, by non-increasing timestamp.
   */
  function ListConversations(store: Store, listing: seq<string>): (r: seq<Entry>)
    requires store.Directory? ==> Enumerates(listing, store.files)
    ensures store.NoDirectory? ==> r == []
    ensures store.Directory? ==> Descending(r)
    ensures store.Directory? ==>
              forall k :: 0 <= k < |r| ==>
                && r[k].filename in store.files
                && EndsWith(r[k].filename, JsonSuffix)
                && r[k] == EntryOf(r[k].filename, store.files[r[k].filename])
    ensures store.Directory? ==>
              forall name :: name in store.files && EndsWith(name, JsonSuffix) ==>
                exists k :: 0 <= k < |r| && r[k].filename == name
    ensures store.Directory? ==> DistinctFiles(r)
  {
    match store
    case NoDirectory => []
    case Directory(files) =>
      var es := Entries(listing, files);
      var r := SortDescending(es);
      ReorderedEntriesValid(files, es, r);
      ReorderedEntriesComplete(listing, files, r);
      ReorderedDistinct(es, r);
      r
  }

  /** An entry occurring at two positions of `es` is counted twice by `multiset(es)`. */
  lemma CountedTwice(es: seq<Entry>, i: nat, j: nat)
    requires i < j < |es| && es[i] == es[j]
    ensures multiset(es)[es[i]] >= 2
  {
    assert es == es[..j] + es[j..];
    assert es[i] in multiset(es[..j]);
    assert es[j..][0] == es[j];
    assert es[j] in multiset(es[j..]);
  }

  /** In a list with one entry per file, every entry is counted once. */
  lemma {:induction false} CountedOnce(es: seq<Entry>, e: Entry)
    requires DistinctFiles(es)
    ensures multiset(es)[e] <= 1
    decreases |es|
  {
    if es != [] {
      var tail := es[1..];
      assert es == [es[0]] + tail;
      assert DistinctFiles(tail) by {
        forall i, j | 0 <= i < j < |tail| ensures tail[i].filename != tail[j].filename {
          assert tail[i] == es[i + 1] && tail[j] == es[j + 1];
        }
      }
      CountedOnce(tail, e);
      if es[0] == e {
        assert e !in tail by {
          forall j | 0 <= j < |tail| ensures tail[j] != e {
            assert tail[j] == es[j + 1];
          }
        }
      }
    }
  }

  /** Reordering a list with one entry per file keeps one entry per file. */
  lemma ReorderedDistinct(es: seq<Entry>, r: seq<Entry>)
    requires multiset(r) == multiset(es) && DistinctFiles(es)
    ensures DistinctFiles(r)
  {
    forall i, j | 0 <= i < j < |r| ensures r[i].filename != r[j].filename {
      if r[i].filename == r[j].filename {
        assert r[i] in multiset(es) && r[j] in multiset(es);
        var a :| 0 <= a < |es| && es[a] == r[i];
        var b :| 0 <= b < |es| && es[b] == r[j];
        assert a == b;
        CountedTwice(r, i, j);
        CountedOnce(es, r[i]);
      }
    }
  }

  /** Reordering entries keeps each one a `.json` file of the directory with its own title and timestamp. */
  lemma ReorderedEntriesValid(files: map<string, Record>, es: seq<Entry>, r: seq<Entry>)
    requires multiset(r) == multiset(es)
    requires forall k :: 0 <= k < |es| ==>
               && es[k].filename in files
               && EndsWith(es[k].filename, JsonSuffix)
               && es[k] == EntryOf(es[k].filename, files[es[k].filename])
    ensures forall k :: 0 <= k < |r| ==>
              && r[k].filename in files
              && EndsWith(r[k].filename, JsonSuffix)
              && r[k] == EntryOf(r[k].filename, files[r[k].filename])
  {
    forall k | 0 <= k < |r|
      ensures && r[k].filename in files
              && EndsWith(r[k].filename, JsonSuffix)
              && r[k] == EntryOf(r[k].filename, files[r[k].filename])
    {
      assert r[k] in multiset(r);
      var m :| 0 <= m < |es| && es[m] == r[k];
    }
  }

  /** Any reordering of the entries of a full listing has an entry for every `.json` file. */
  lemma ReorderedEntriesComplete(listing: seq<string>, files: map<string, Record>, r: seq<Entry>)
    requires Enumerates(listing, files)
    requires multiset(r) == multiset(Entries(listing, files))
    ensures forall name :: name in files && EndsWith(name, JsonSuffix) ==>
              exists k :: 0 <= k < |r| && r[k].filename == name
  {
    var es := Entries(listing, files);
    forall name | name in files && EndsWith(name, JsonSuffix)
      ensures exists k :: 0 <= k < |r| && r[k].filename == name
    {
      var i :| 0 <= i < |listing| && listing[i] == name;
      EntriesComplete(listing, files, i);
      var m :| 0 <= m < |es| && es[m].filename == name;
      assert es[m] in multiset(r);
      var k :| 0 <= k < |r| && r[k] == es[m];
    }
  }

  // ---------------------------------------------------------------------------
  // How the operations fit together
  // ---------------------------------------------------------------------------

  /** Every conversation file name ends in `.json`, so the list shows every saved conversation. */
  lemma FileNameIsJson(id: string)
    ensures EndsWith(FileName(id), JsonSuffix)
  {
    var n := FileName(id);
    assert n[|n| - |JsonSuffix|..] == JsonSuffix;
  }

  /**
   Once a conversation is saved, saving it again, however the transcript has
   grown and whatever the clock says, keeps its id and overwrites the same
   file: the directory gains no second entry.
   */
  lemma SaveTwiceSameFile(s: Session, now: string, later: string, store: Store, more: seq<Message>)
    requires |s.messages| > 1 && store.Directory?
    ensures var first := Save(s, now, store);
            var grown := first.session.(messages := first.session.messages + more);
            var second := Save(grown, later, first.store);
            var id := first.session.conversationId.value;
            && second.session.conversationId == first.session.conversationId
            && second.outcome == first.outcome
            && second.store.files.Keys == first.store.files.Keys
            && second.store.files[FileName(id)] == RecordOf(grown, id)
  {
  }

  /**
   Loading the file a save wrote restores the saved transcript, both maps and
   the id, whatever the session held before.
   */
  lemma LoadAfterSave(s: Session, now: string, store: Store, other: Session)
    requires |s.messages| > 1 && store.Directory?
    ensures var saved := Save(s, now, store);
            var id := saved.session.conversationId.value;
            Load(other, saved.store, FileName(id)) == Loaded(saved.session, None)
  {
    var saved := Save(s, now, store);
    var id := saved.session.conversationId.value;
    var d := saved.store.files[FileName(id)];
    assert d == RecordOf(s, id);
  }

  /**
   Deleting the file just saved, when it did not exist before, gives back the
   directory as it was and leaves the session without an id.
   */
  lemma DeleteAfterSave(s: Session, now: string, store: Store)
    requires |s.messages| > 1 && store.Directory?
    requires FileName(ValueOr(s.conversationId, now)) !in store.files
    ensures var saved := Save(s, now, store);
            var id := saved.session.conversationId.value;
            var deleted := Delete(saved.session, saved.store, FileName(id));
            && deleted.ok
            && deleted.store == store
            && deleted.session == s.(conversationId := None)
  {
    var saved := Save(s, now, store);
    var id := saved.session.conversationId.value;
    var deleted := Delete(saved.session, saved.store, FileName(id));
    assert deleted.store.files == store.files;
  }

  /**
   After the active conversation's file is deleted, the next save starts a
   new file named after the current clock.
   */
  lemma SaveAfterDeletingActive(s: Session, store: Store, name: string, now: string)
    requires IsActive(s, name) && store.Directory? && name in store.files
    requires |s.messages| > 1
    ensures var deleted := Delete(s, store, name);
            var saved := Save(deleted.session, now, deleted.store);
            && saved.session.conversationId == Some(now)
            && saved.outcome == Written(FilePath(FileName(now)))
  {
  }

  /** Deleting another conversation's file keeps the session's id, and the next save rewrites the session's own file. */
  lemma SaveAfterDeletingOther(s: Session, store: Store, name: string, now: string)
    requires s.conversationId.Some? && !IsActive(s, name) && store.Directory? && name in store.files
    requires |s.messages| > 1
    ensures var deleted := Delete(s, store, name);
            var saved := Save(deleted.session, now, deleted.store);
            && saved.session.conversationId == s.conversationId
            && saved.outcome == Written(FilePath(FileName(s.conversationId.value)))
            && name !in saved.store.files
  {
  }

  /**
   A saved conversation appears in the list exactly once, with its title and
   its id as timestamp.
   */
  lemma ListAfterSave(s: Session, now: string, store: Store, listing: seq<string>)
    requires |s.messages| > 1 && store.Directory?
    requires Enumerates(listing, Save(s, now, store).store.files)
    ensures var saved := Save(s, now, store);
            var id := saved.session.conversationId.value;
            var r := ListConversations(saved.store, listing);
            exists k :: 0 <= k < |r| && r[k] == Entry(FileName(id), Title(s.messages, id), id)
                        && forall j :: 0 <= j < |r| && r[j].filename == FileName(id) ==> j == k
  {
    var saved := Save(s, now, store);
    var id := saved.session.conversationId.value;
    FileNameIsJson(id);
    var r := ListConversations(saved.store, listing);
    var k :| 0 <= k < |r| && r[k].filename == FileName(id);
    assert r[k] == Entry(FileName(id), Title(s.messages, id), id);
    assert forall j :: 0 <= j < |r| && r[j].filename == FileName(id) ==> j == k;
  }

  /**
   Saving into an empty directory lists exactly one conversation: the one
   just saved.
   */
  lemma ListAfterFirstSave(s: Session, now: string, listing: seq<string>)
    requires |s.messages| > 1
    requires Enumerates(listing, Save(s, now, Directory(map[])).store.files)
    ensures var saved := Save(s, now, Directory(map[]));
            var id := saved.session.conversationId.value;
            ListConversations(saved.store, listing) == [Entry(FileName(id), Title(s.messages, id), id)]
  {
    var saved := Save(s, now, Directory(map[]));
    var id := saved.session.conversationId.value;
    var r := ListConversations(saved.store, listing);
    assert saved.store.files.Keys == {FileName(id)};
    ListAfterSave(s, now, Directory(map[]), listing);
    var k :| 0 <= k < |r| && r[k] == Entry(FileName(id), Title(s.messages, id), id);
    assert forall j :: 0 <= j < |r| ==> r[j].filename == FileName(id);
    assert |r| == 1;
  }
}
