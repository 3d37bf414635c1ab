/**
 * The comment harvester of tag.go: the look-up of a field's trailing comment
 * in the source-code-info table, and the table of tags built for every
 * top-level message and every message declared directly inside one.
 */
module Harvester {
  import opened GoStrings
  import opened Descriptor

  // ---------------------------------------------------------------------------
  // isSamePath and getTrailingComment
  // ---------------------------------------------------------------------------

  /** isSamePath: the two paths have the same length and agree at every index. */
  method IsSamePath(a: Path, b: Path) returns (same: bool)
    ensures same <==> |a| == |b| && forall i :: 0 <= i < |a| ==> a[i] == b[i]
    ensures same <==> a == b
  {
    if |a| != |b| {
      return false;
    }
    for i := 0 to |a|
      invariant forall k :: 0 <= k < i ==> a[k] == b[k]
    {
      if a[i] != b[i] {
        return false;
      }
    }
    return true;
  }

  /** The location describes `path` and carries a trailing comment that is not blank. */
  predicate Describes(loc: Location, path: Path) {
    loc.path == path && TrimSpace(loc.trailingComments) != ""
  }

  /**
   * The tag of the field at `path`: the trimmed trailing comment of the first
   * location, in table order, that describes `path`, or DefaultTag when none does.
   */
  function TrailingComment(path: Path, locations: seq<Location>): (comment: string)
    ensures comment != ""
    ensures (forall t :: 0 <= t < |locations| ==> !Describes(locations[t], path)) ==> comment == DefaultTag
    ensures forall t :: 0 <= t < |locations| && Describes(locations[t], path)
                        && (forall u :: 0 <= u < t ==> !Describes(locations[u], path))
                        ==> comment == TrimSpace(locations[t].trailingComments)
    decreases |locations|
  {
    if locations == [] then DefaultTag
    else if Describes(locations[0], path) then TrimSpace(locations[0].trailingComments)
    else
      var rest := locations[1..];
      assert forall t :: 1 <= t < |locations| ==> locations[t] == rest[t - 1];
      TrailingComment(path, rest)
  }

  /** getTrailingComment: scans the table and stops at the first location that describes `path`. */
  method GetTrailingComment(path: Path, locations: seq<Location>) returns (comment: string)
    ensures comment == TrailingComment(path, locations)
  {
    for t := 0 to |locations|
      invariant forall u :: 0 <= u < t ==> !Describes(locations[u], path)
    {
      var same := IsSamePath(locations[t].path, path);
      if same {
        var trimmed := TrimSpace(locations[t].trailingComments);
        if trimmed != "" {
          return trimmed;
        }
      }
    }
    return DefaultTag;
  }

  /** A tag never holds a `$` that no trailing comment holds. */
  lemma {:induction false} TrailingCommentNoDollar(path: Path, locations: seq<Location>)
    requires NoDollarComments(locations)
    ensures '$' !in TrailingComment(path, locations)
    decreases |locations|
  {
    if locations != [] && !Describes(locations[0], path) {
      TrailingCommentNoDollar(path, locations[1..]);
    }
  }

  // ---------------------------------------------------------------------------
  // addFieldComment
  // ---------------------------------------------------------------------------

  /** The names of `fields`. */
  function FieldNames(fields: seq<Field>): set<string> {
    set k | 0 <= k < |fields| :: fields[k].name
  }

  /** No field after the one at `k` has its name. */
  predicate LastOfName(fields: seq<Field>, k: int)
    requires 0 <= k < |fields|
  {
    forall k' :: k < k' < |fields| ==> fields[k'].name != fields[k].name
  }

  /** The entries the table holds for message `name`, none when it has no entry. */
  function Entries(comments: CommentMap, name: string): map<string, string> {
    if name in comments then comments[name] else map[]
  }

  /**
   * The table after addFieldComment has stored the tags of `fields`, in order,
   * under message `name`: field k's tag is looked up at `path + [2, k]`.
   */
  function FieldComments(comments: CommentMap, path: Path, name: string, fields: seq<Field>,
                         locations: seq<Location>): CommentMap
    decreases |fields|
  {
    if fields == [] then comments
    else
      var k := |fields| - 1;
      var before := FieldComments(comments, path, name, fields[..k], locations);
      before[name := Entries(before, name)[fields[k].name := TrailingComment(path + [FieldTag, k], locations)]]
  }

  /** Storing field i after fields 0 to i - 1. */
  lemma FieldCommentsSnoc(comments: CommentMap, path: Path, name: string, fields: seq<Field>,
                          locations: seq<Location>, i: int)
    requires 0 <= i < |fields|
    ensures var before := FieldComments(comments, path, name, fields[..i], locations);
            FieldComments(comments, path, name, fields[..i + 1], locations)
            == before[name := Entries(before, name)[fields[i].name := TrailingComment(path + [FieldTag, i], locations)]]
  {
    assert fields[..i + 1][..i] == fields[..i];
  }

  /** addFieldComment(path, message) as a function of the table it starts from. */
  function AddFieldComments(comments: CommentMap, path: Path, message: Message, locations: seq<Location>): CommentMap {
    FieldComments(comments, path, message.name, message.fields, locations)
  }

  /** Storing the tags of one message leaves the entries of every other message as they were. */
  lemma {:induction false} FieldCommentsOthers(comments: CommentMap, path: Path, name: string, fields: seq<Field>,
                                               locations: seq<Location>)
    ensures var r := FieldComments(comments, path, name, fields, locations);
            forall n :: n != name ==> (n in r <==> n in comments) && (n in r ==> r[n] == comments[n])
    decreases |fields|
  {
    if fields != [] {
      FieldCommentsOthers(comments, path, name, fields[..|fields| - 1], locations);
    }
  }

  /**
   * Storing the tags of a message: it has an entry exactly when it had one or
   * has a field, and its keys are its old keys and its field names.
   */
  lemma {:induction false} FieldCommentsKeys(comments: CommentMap, path: Path, name: string, fields: seq<Field>,
                                             locations: seq<Location>)
    ensures var r := FieldComments(comments, path, name, fields, locations);
            (name in r <==> name in comments || fields != [])
            && Entries(r, name).Keys == Entries(comments, name).Keys + FieldNames(fields)
    decreases |fields|
  {
    if fields != [] {
      var k := |fields| - 1;
      var prefix := fields[..k];
      FieldCommentsKeys(comments, path, name, prefix, locations);
      var before := FieldComments(comments, path, name, prefix, locations);
      var tag := TrailingComment(path + [FieldTag, k], locations);
      assert FieldComments(comments, path, name, fields, locations)
          == before[name := Entries(before, name)[fields[k].name := tag]];
      FieldNamesSnoc(fields);
    }
  }

  lemma FieldNamesSnoc(fields: seq<Field>)
    requires fields != []
    ensures FieldNames(fields) == FieldNames(fields[..|fields| - 1]) + {fields[|fields| - 1].name}
  {
    var k := |fields| - 1;
    var prefix := fields[..k];
    forall x | x in FieldNames(fields) ensures x in FieldNames(prefix) + {fields[k].name} {
      var i :| 0 <= i < |fields| && fields[i].name == x;
      if i < k {
        assert prefix[i] == fields[i];
      }
    }
    forall x | x in FieldNames(prefix) ensures x in FieldNames(fields) {
      var i :| 0 <= i < k && prefix[i].name == x;
      assert fields[i] == prefix[i];
    }
  }

  /** The entry of a field name is the tag of the last field of that name, looked up at `path + [2, k]`. */
  lemma {:induction false} FieldCommentsLast(comments: CommentMap, path: Path, name: string, fields: seq<Field>,
                                             locations: seq<Location>, k: int)
    requires 0 <= k < |fields| && LastOfName(fields, k)
    ensures var r := FieldComments(comments, path, name, fields, locations);
            name in r && fields[k].name in r[name]
            && r[name][fields[k].name] == TrailingComment(path + [FieldTag, k], locations)
    decreases |fields|
  {
    var last := |fields| - 1;
    var prefix := fields[..last];
    var before := FieldComments(comments, path, name, prefix, locations);
    var tag := TrailingComment(path + [FieldTag, last], locations);
    var r := FieldComments(comments, path, name, fields, locations);
    assert r == before[name := Entries(before, name)[fields[last].name := tag]];
    assert r[name] == Entries(before, name)[fields[last].name := tag];
    if k < last {
      assert prefix[k] == fields[k];
      assert LastOfName(prefix, k);
      FieldCommentsLast(comments, path, name, prefix, locations, k);
      assert fields[k].name != fields[last].name;
      assert r[name][fields[k].name] == before[name][fields[k].name];
      assert r[name][fields[k].name] == TrailingComment(path + [FieldTag, k], locations);
    } else {
      assert k == last;
      assert r[name][fields[k].name] == tag;
    }
  }

  /** An old entry of the message whose key is no field name keeps its tag. */
  lemma {:induction false} FieldCommentsKept(comments: CommentMap, path: Path, name: string, fields: seq<Field>,
                                             locations: seq<Location>, f: string)
    requires f in Entries(comments, name) && f !in FieldNames(fields)
    ensures var r := FieldComments(comments, path, name, fields, locations);
            f in Entries(r, name) && Entries(r, name)[f] == Entries(comments, name)[f]
    decreases |fields|
  {
    if fields != [] {
      var k := |fields| - 1;
      var prefix := fields[..k];
      assert fields[k].name in FieldNames(fields);
      assert FieldNames(prefix) <= FieldNames(fields) by {
        assert forall k' :: 0 <= k' < k ==> prefix[k'] == fields[k'];
      }
      FieldCommentsKept(comments, path, name, prefix, locations, f);
    }
  }

  /** addFieldComment, stated for one message whose field names are distinct. */
  lemma AddFieldCommentsEntry(comments: CommentMap, path: Path, message: Message, locations: seq<Location>, k: int)
    requires 0 <= k < |message.fields|
    requires forall k1, k2 :: 0 <= k1 < k2 < |message.fields| ==> message.fields[k1].name != message.fields[k2].name
    ensures var r := AddFieldComments(comments, path, message, locations);
            message.name in r && message.fields[k].name in r[message.name]
            && r[message.name][message.fields[k].name] == TrailingComment(path + [FieldTag, k], locations)
  {
    assert LastOfName(message.fields, k);
    FieldCommentsLast(comments, path, message.name, message.fields, locations, k);
  }

  /** Storing tags that hold no `$` keeps the table free of `$`. */
  lemma {:induction false} FieldCommentsNoDollar(comments: CommentMap, path: Path, name: string, fields: seq<Field>,
                                                 locations: seq<Location>)
    requires NoDollar(comments) && NoDollarComments(locations)
    ensures NoDollar(FieldComments(comments, path, name, fields, locations))
    decreases |fields|
  {
    if fields != [] {
      FieldCommentsNoDollar(comments, path, name, fields[..|fields| - 1], locations);
      TrailingCommentNoDollar(path + [FieldTag, |fields| - 1], locations);
    }
  }

  // ---------------------------------------------------------------------------
  // The harvest loop of Generate
  // ---------------------------------------------------------------------------

  /** One call of addFieldComment: the path of a message's descriptor and the message. */
  datatype Job = Job(path: Path, message: Message)

  /** The calls for the messages nested in the message at `path`, at `path + [3, j]`. */
  function NestedJobs(path: Path, nested: seq<Message>): (jobs: seq<Job>)
    ensures |jobs| == |nested|
  {
    seq(|nested|, j requires 0 <= j < |nested| => Job(path + [NestedTypeTag, j], nested[j]))
  }

  /** One more nested message adds one call, for it, at the end. */
  lemma NestedJobsSnoc(path: Path, nested: seq<Message>, j: int)
    requires 0 <= j < |nested|
    ensures NestedJobs(path, nested[..j + 1]) == NestedJobs(path, nested[..j]) + [Job(path + [NestedTypeTag, j], nested[j])]
  {
  }

  /** The calls for top-level message `i`: first its nested messages, then the message at `[4, i]`. */
  function MessageJobs(i: nat, message: Message): seq<Job> {
    NestedJobs([MessageTypeTag, i], message.nested) + [Job([MessageTypeTag, i], message)]
  }

  /** Every call of addFieldComment the harvest loop makes, in order. */
  function Jobs(messages: seq<Message>): seq<Job>
    decreases |messages|
  {
    if messages == [] then []
    else Jobs(messages[..|messages| - 1]) + MessageJobs(|messages| - 1, messages[|messages| - 1])
  }

  /** The table after the calls `jobs`, in order. */
  function ApplyJobs(comments: CommentMap, jobs: seq<Job>, locations: seq<Location>): CommentMap
    decreases |jobs|
  {
    if jobs == [] then comments
    else
      var last := jobs[|jobs| - 1];
      AddFieldComments(ApplyJobs(comments, jobs[..|jobs| - 1], locations), last.path, last.message, locations)
  }

  /** The table after the harvest loop of Generate over `messages`. */
  function Harvest(comments: CommentMap, messages: seq<Message>, locations: seq<Location>): CommentMap {
    ApplyJobs(comments, Jobs(messages), locations)
  }

  /** The calls of addFieldComment one after the other. */
  lemma ApplyJobsSnoc(comments: CommentMap, jobs: seq<Job>, job: Job, locations: seq<Location>)
    ensures ApplyJobs(comments, jobs + [job], locations)
            == AddFieldComments(ApplyJobs(comments, jobs, locations), job.path, job.message, locations)
  {
    assert (jobs + [job])[..|jobs|] == jobs;
  }

  /** Top-level message i adds the calls for its nested messages and then the one for itself. */
  lemma JobsSnoc(messages: seq<Message>, i: int)
    requires 0 <= i < |messages|
    ensures Jobs(messages[..i + 1])
            == Jobs(messages[..i]) + NestedJobs([MessageTypeTag, i], messages[i].nested) + [Job([MessageTypeTag, i], messages[i])]
  {
    assert messages[..i + 1][..i] == messages[..i];
  }

  /** The job is top-level message i at `[4, i]` or its nested message j at `[4, i, 3, j]`. */
  ghost predicate Harvested(messages: seq<Message>, job: Job) {
    (exists i :: 0 <= i < |messages| && job == Job([MessageTypeTag, i], messages[i]))
    || (exists i, j :: 0 <= i < |messages| && 0 <= j < |messages[i].nested|
          && job == Job([MessageTypeTag, i, NestedTypeTag, j], messages[i].nested[j]))
  }

  lemma MessageJobsExactly(i: nat, message: Message, job: Job)
    ensures job in MessageJobs(i, message) <==>
              job == Job([MessageTypeTag, i], message)
              || exists j :: 0 <= j < |message.nested| && job == Job([MessageTypeTag, i, NestedTypeTag, j], message.nested[j])
  {
    var nested := NestedJobs([MessageTypeTag, i], message.nested);
    assert forall j :: 0 <= j < |message.nested| ==> nested[j] == Job([MessageTypeTag, i, NestedTypeTag, j], message.nested[j]);
  }

  /**
   * The harvest calls addFieldComment for exactly the top-level messages, at
   * `[4, i]`, and the messages declared directly in them, at `[4, i, 3, j]`:
   * a message nested two levels deep is never visited.
   */
  lemma {:induction false} JobsExactly(messages: seq<Message>)
    ensures forall job :: job in Jobs(messages) <==> Harvested(messages, job)
    decreases |messages|
  {
    if messages != [] {
      var n := |messages| - 1;
      var prefix := messages[..n];
      JobsExactly(prefix);
      assert forall i :: 0 <= i < n ==> prefix[i] == messages[i];
      forall job ensures job in Jobs(messages) <==> Harvested(messages, job) {
        MessageJobsExactly(n, messages[n], job);
        if Harvested(messages, job) && job !in MessageJobs(n, messages[n]) {
          if i :| 0 <= i < |messages| && job == Job([MessageTypeTag, i], messages[i]) {
            assert i != n;
            assert Harvested(prefix, job);
          } else {
            var i, j :| 0 <= i < |messages| && 0 <= j < |messages[i].nested|
                        && job == Job([MessageTypeTag, i, NestedTypeTag, j], messages[i].nested[j]);
            assert i != n;
            assert Harvested(prefix, job);
          }
        }
        if job in Jobs(prefix) {
          assert Harvested(prefix, job);
          if i :| 0 <= i < |prefix| && job == Job([MessageTypeTag, i], prefix[i]) {
            assert Harvested(messages, job);
          } else {
            var i, j :| 0 <= i < |prefix| && 0 <= j < |prefix[i].nested|
                        && job == Job([MessageTypeTag, i, NestedTypeTag, j], prefix[i].nested[j]);
            assert Harvested(messages, job);
          }
        }
      }
    }
  }

  /** Only top-level messages and messages declared directly in them are visited: paths have length 2 or 4. */
  lemma JobPaths(messages: seq<Message>)
    ensures forall job :: job in Jobs(messages) ==>
              (|job.path| == 2 || |job.path| == 4) && job.path[0] == MessageTypeTag
              && (|job.path| == 4 ==> job.path[2] == NestedTypeTag)
  {
    JobsExactly(messages);
  }

  /** The names of the messages of `jobs` that have at least one field. */
  function JobNames(jobs: seq<Job>): set<string> {
    set t | 0 <= t < |jobs| && jobs[t].message.fields != [] :: jobs[t].message.name
  }

  /** Storing the tags of a message adds an entry for it when it has a field, and changes no other key. */
  lemma FieldCommentsKeySet(comments: CommentMap, path: Path, name: string, fields: seq<Field>, locations: seq<Location>)
    ensures FieldComments(comments, path, name, fields, locations).Keys
            == comments.Keys + (if fields != [] then {name} else {})
  {
    var r := FieldComments(comments, path, name, fields, locations);
    FieldCommentsKeys(comments, path, name, fields, locations);
    FieldCommentsOthers(comments, path, name, fields, locations);
    forall x ensures x in r.Keys <==> x in comments.Keys + (if fields != [] then {name} else {}) {
      if x != name {
        assert x in r <==> x in comments;
      }
    }
  }

  lemma JobNamesSnoc(jobs: seq<Job>)
    requires jobs != []
    ensures var last := jobs[|jobs| - 1].message;
            JobNames(jobs) == JobNames(jobs[..|jobs| - 1]) + (if last.fields != [] then {last.name} else {})
  {
    var n := |jobs| - 1;
    assert forall t :: 0 <= t < n ==> jobs[..n][t] == jobs[t];
  }

  /** The calls add an entry for each message with a field and remove none. */
  lemma {:induction false} ApplyJobsKeys(comments: CommentMap, jobs: seq<Job>, locations: seq<Location>)
    ensures ApplyJobs(comments, jobs, locations).Keys == comments.Keys + JobNames(jobs)
    decreases |jobs|
  {
    if jobs != [] {
      var n := |jobs| - 1;
      ApplyJobsKeys(comments, jobs[..n], locations);
      FieldCommentsKeySet(ApplyJobs(comments, jobs[..n], locations), jobs[n].path, jobs[n].message.name,
                          jobs[n].message.fields, locations);
      JobNamesSnoc(jobs);
    }
  }

  /** A message that no call with fields names keeps its entry, or its absence. */
  lemma {:induction false} ApplyJobsOthers(comments: CommentMap, jobs: seq<Job>, locations: seq<Location>, name: string)
    requires name !in JobNames(jobs)
    ensures var r := ApplyJobs(comments, jobs, locations);
            (name in r <==> name in comments) && (name in r ==> r[name] == comments[name])
    decreases |jobs|
  {
    if jobs != [] {
      var n := |jobs| - 1;
      var prefix := jobs[..n];
      var m := jobs[n].message;
      assert JobNames(prefix) <= JobNames(jobs) by {
        assert forall t :: 0 <= t < n ==> prefix[t] == jobs[t];
      }
      ApplyJobsOthers(comments, prefix, locations, name);
      var before := ApplyJobs(comments, prefix, locations);
      if m.fields != [] {
        assert m.name in JobNames(jobs);
        FieldCommentsOthers(before, jobs[n].path, m.name, m.fields, locations);
      }
    }
  }

  /** Every message of `jobs` has its own name, and the fields of each have distinct names. */
  ghost predicate DistinctNames(jobs: seq<Job>) {
    (forall t, u :: 0 <= t < u < |jobs| ==> jobs[t].message.name != jobs[u].message.name)
    && (forall t, k1, k2 :: 0 <= t < |jobs| && 0 <= k1 < k2 < |jobs[t].message.fields|
          ==> jobs[t].message.fields[k1].name != jobs[t].message.fields[k2].name)
  }

  /** With distinct names, field k of the message of call t gets the tag found at that call's path + [2, k]. */
  lemma {:induction false} ApplyJobsEntry(comments: CommentMap, jobs: seq<Job>, locations: seq<Location>, t: int, k: int)
    requires DistinctNames(jobs) && 0 <= t < |jobs| && 0 <= k < |jobs[t].message.fields|
    ensures var r := ApplyJobs(comments, jobs, locations);
            var m := jobs[t].message;
            m.name in r && m.fields[k].name in r[m.name]
            && r[m.name][m.fields[k].name] == TrailingComment(jobs[t].path + [FieldTag, k], locations)
    decreases |jobs|
  {
    var n := |jobs| - 1;
    var prefix := jobs[..n];
    var before := ApplyJobs(comments, prefix, locations);
    var last := jobs[n];
    if t == n {
      AddFieldCommentsEntry(before, last.path, last.message, locations, k);
    } else {
      assert forall u :: 0 <= u < n ==> prefix[u] == jobs[u];
      assert DistinctNames(prefix);
      ApplyJobsEntry(comments, prefix, locations, t, k);
      assert last.message.name != jobs[t].message.name;
      FieldCommentsOthers(before, last.path, last.message.name, last.message.fields, locations);
    }
  }

  /** Tags that hold no `$` keep the table free of `$`. */
  lemma {:induction false} ApplyJobsNoDollar(comments: CommentMap, jobs: seq<Job>, locations: seq<Location>)
    requires NoDollar(comments) && NoDollarComments(locations)
    ensures NoDollar(ApplyJobs(comments, jobs, locations))
    decreases |jobs|
  {
    if jobs != [] {
      var n := |jobs| - 1;
      ApplyJobsNoDollar(comments, jobs[..n], locations);
      FieldCommentsNoDollar(ApplyJobs(comments, jobs[..n], locations), jobs[n].path, jobs[n].message.name,
                            jobs[n].message.fields, locations);
    }
  }

  // ---------------------------------------------------------------------------
  // What the harvest stores
  // ---------------------------------------------------------------------------

  /** The names of the top-level and directly nested messages that have a field. */
  ghost function HarvestedNames(messages: seq<Message>): set<string> {
    (set i | 0 <= i < |messages| && messages[i].fields != [] :: messages[i].name)
    + (set i, j | 0 <= i < |messages| && 0 <= j < |messages[i].nested| && messages[i].nested[j].fields != []
         :: messages[i].nested[j].name)
  }

  lemma JobNameHarvested(messages: seq<Message>, n: string)
    requires n in JobNames(Jobs(messages))
    ensures n in HarvestedNames(messages)
  {
    var jobs := Jobs(messages);
    JobsExactly(messages);
    var t :| 0 <= t < |jobs| && jobs[t].message.fields != [] && jobs[t].message.name == n;
    assert Harvested(messages, jobs[t]);
    if i :| 0 <= i < |messages| && jobs[t] == Job([MessageTypeTag, i], messages[i]) {
      assert messages[i].name == n;
    } else {
      var i, j :| 0 <= i < |messages| && 0 <= j < |messages[i].nested|
                  && jobs[t] == Job([MessageTypeTag, i, NestedTypeTag, j], messages[i].nested[j]);
      assert messages[i].nested[j].name == n;
    }
  }

  lemma HarvestedJobName(messages: seq<Message>, n: string)
    requires n in HarvestedNames(messages)
    ensures n in JobNames(Jobs(messages))
  {
    var jobs := Jobs(messages);
    JobsExactly(messages);
    if i :| 0 <= i < |messages| && messages[i].fields != [] && messages[i].name == n {
      var job := Job([MessageTypeTag, i], messages[i]);
      assert Harvested(messages, job);
      var t :| 0 <= t < |jobs| && jobs[t] == job;
    } else {
      var i, j :| 0 <= i < |messages| && 0 <= j < |messages[i].nested| && messages[i].nested[j].fields != []
                  && messages[i].nested[j].name == n;
      var job := Job([MessageTypeTag, i, NestedTypeTag, j], messages[i].nested[j]);
      assert Harvested(messages, job);
      var t :| 0 <= t < |jobs| && jobs[t] == job;
    }
  }

  /**
   * The harvest adds an entry for every top-level and directly nested message
   * that has a field, and for no other: a message nested deeper gets none
   * unless it shares its name with one of those. Old entries stay.
   */
  lemma HarvestKeys(comments: CommentMap, messages: seq<Message>, locations: seq<Location>)
    ensures Harvest(comments, messages, locations).Keys == comments.Keys + HarvestedNames(messages)
  {
    ApplyJobsKeys(comments, Jobs(messages), locations);
    forall n | n in JobNames(Jobs(messages)) ensures n in HarvestedNames(messages) {
      JobNameHarvested(messages, n);
    }
    forall n | n in HarvestedNames(messages) ensures n in JobNames(Jobs(messages)) {
      HarvestedJobName(messages, n);
    }
  }

  /**
   * A message the harvest does not store keeps its old entry, or its absence:
   * the table accumulates from one file to the next.
   */
  lemma HarvestOthers(comments: CommentMap, messages: seq<Message>, locations: seq<Location>, name: string)
    requires name !in HarvestedNames(messages)
    ensures var r := Harvest(comments, messages, locations);
            (name in r <==> name in comments) && (name in r ==> r[name] == comments[name])
  {
    if name in JobNames(Jobs(messages)) {
      JobNameHarvested(messages, name);
    }
    ApplyJobsOthers(comments, Jobs(messages), locations, name);
  }

  /** Every visited message has its own name, and the fields of each have distinct names. */
  ghost predicate WellNamed(messages: seq<Message>) {
    DistinctNames(Jobs(messages))
  }

  /** Field k of top-level message i is stored with the tag found at `[4, i, 2, k]`. */
  lemma HarvestTopLevelField(comments: CommentMap, messages: seq<Message>, locations: seq<Location>, i: int, k: int)
    requires WellNamed(messages) && 0 <= i < |messages| && 0 <= k < |messages[i].fields|
    ensures var r := Harvest(comments, messages, locations);
            var m := messages[i];
            m.name in r && m.fields[k].name in r[m.name]
            && r[m.name][m.fields[k].name] == TrailingComment([MessageTypeTag, i, FieldTag, k], locations)
  {
    var jobs := Jobs(messages);
    JobsExactly(messages);
    var job := Job([MessageTypeTag, i], messages[i]);
    assert Harvested(messages, job);
    var t :| 0 <= t < |jobs| && jobs[t] == job;
    ApplyJobsEntry(comments, jobs, locations, t, k);
    assert job.path + [FieldTag, k] == [MessageTypeTag, i, FieldTag, k];
  }

  /** Field k of message j nested in top-level message i is stored with the tag found at `[4, i, 3, j, 2, k]`. */
  lemma HarvestNestedField(comments: CommentMap, messages: seq<Message>, locations: seq<Location>, i: int, j: int, k: int)
    requires WellNamed(messages) && 0 <= i < |messages| && 0 <= j < |messages[i].nested|
    requires 0 <= k < |messages[i].nested[j].fields|
    ensures var r := Harvest(comments, messages, locations);
            var m := messages[i].nested[j];
            m.name in r && m.fields[k].name in r[m.name]
            && r[m.name][m.fields[k].name]
               == TrailingComment([MessageTypeTag, i, NestedTypeTag, j, FieldTag, k], locations)
  {
    var jobs := Jobs(messages);
    JobsExactly(messages);
    var job := Job([MessageTypeTag, i, NestedTypeTag, j], messages[i].nested[j]);
    assert Harvested(messages, job);
    var t :| 0 <= t < |jobs| && jobs[t] == job;
    ApplyJobsEntry(comments, jobs, locations, t, k);
    assert job.path + [FieldTag, k] == [MessageTypeTag, i, NestedTypeTag, j, FieldTag, k];
  }
}
