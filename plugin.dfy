/**
 * The `tag` generator plugin: the object protoc-gen-go calls once per file,
 * which harvests every field's trailing comment into its table and then
 * rewrites the generated Go stub with those comments as struct tags.
 */
module Plugin {
  import opened GoStrings
  import opened Descriptor
  import opened Names
  import opened Harvester
  import opened Rewrite

  class Tag {
    /** The file being compiled. */
    var file: FileDescriptor
    /** Message name to (field name to tag text); it is kept from one file to the next. */
    var comments: CommentMap

    /** Init: the table starts empty. */
    constructor Init()
      ensures comments == map[]
      ensures file == FileDescriptor([], [])
    {
      comments := map[];
      file := FileDescriptor([], []);
    }

    /**
     * addFieldComment: store the tag of every field of `message`, the field at
     * index k under `path + [2, k]` of the current file's source-code info.
     */
    method AddFieldComment(path: Path, message: Message)
      modifies this`comments
      ensures comments == AddFieldComments(old(comments), path, message, file.locations)
    {
      var name := message.name;
      var locations := file.locations;
      for i := 0 to |message.fields|
        invariant comments == FieldComments(old(comments), path, name, message.fields[..i], locations)
      {
        FieldCommentsSnoc(old(comments), path, name, message.fields, locations, i);
        var comment := GetTrailingComment(path + [FieldTag, i], locations);
        if name !in comments {
          comments := comments[name := map[]];
        }
        comments := comments[name := comments[name][message.fields[i].name := comment]];
      }
      assert message.fields[..|message.fields|] == message.fields;
    }

    /**
     * Generate: harvest the comments of `f` into the table, then rewrite the
     * lines of the generated stub and return the new stub.
     */
    method Generate(f: FileDescriptor, stub: seq<string>) returns (out: string)
      requires NoDollar(comments) && NoDollarComments(f.locations)
      modifies this
      ensures file == f
      ensures comments == Harvest(old(comments), f.messages, f.locations)
      ensures NoDollar(comments)
      ensures out == Render(RewriteLines(comments, stub))
    {
      file := f;
      ghost var start := comments;
      var messages := f.messages;
      for i := 0 to |messages|
        invariant file == f
        invariant comments == ApplyJobs(start, Jobs(messages[..i]), f.locations)
      {
        var message := messages[i];
        var path := [MessageTypeTag, i];
        ghost var done := Jobs(messages[..i]);
        assert done + NestedJobs(path, message.nested[..0]) == done;
        for j := 0 to |message.nested|
          invariant file == f
          invariant comments == ApplyJobs(start, done + NestedJobs(path, message.nested[..j]), f.locations)
        {
          ghost var jobs := done + NestedJobs(path, message.nested[..j]);
          ghost var job := Job(path + [NestedTypeTag, j], message.nested[j]);
          NestedJobsSnoc(path, message.nested, j);
          assert done + NestedJobs(path, message.nested[..j + 1]) == jobs + [job];
          ApplyJobsSnoc(start, jobs, job, f.locations);
          AddFieldComment(path + [NestedTypeTag, j], message.nested[j]);
        }
        assert message.nested[..|message.nested|] == message.nested;
        JobsSnoc(messages, i);
        ApplyJobsSnoc(start, done + NestedJobs(path, message.nested), Job(path, message), f.locations);
        AddFieldComment(path, message);
      }
      assert messages[..|messages|] == messages;
      ApplyJobsNoDollar(start, Jobs(messages), f.locations);
      out := RewriteStub(comments, stub);
    }
  }

  /**
   * End to end: when the rewriter is inside the struct of a harvested message
   * and meets a field line whose lower-cased-first name is that of field k of
   * the message, the line comes out with the comment found at the field's path
   * spliced in before its closing backtick.
   */
  lemma FieldLineGetsItsComment(start: CommentMap, f: FileDescriptor, stub: seq<string>, n: int, job: Job, k: int)
    requires NoDollar(start) && NoDollarComments(f.locations) && WellNamed(f.messages)
    requires Harvested(f.messages, job) && 0 <= k < |job.message.fields|
    requires 0 <= n < |stub|
    ensures var c := Harvest(start, f.messages, f.locations);
            NoDollar(c)
            && (var st := StateAt(c, stub, n);
                var line := stub[n];
                Tagged(st, line) && st.structName == job.message.name && EndsWithBacktick(line)
                && ToLowerFirst(FieldName(line)) == job.message.fields[k].name
                ==> RewriteLines(c, stub)[n]
                    == line[..|line| - 1] + " " + TrailingComment(job.path + [FieldTag, k], f.locations) + "`")
  {
    var c := Harvest(start, f.messages, f.locations);
    var jobs := Jobs(f.messages);
    ApplyJobsNoDollar(start, jobs, f.locations);
    var st := StateAt(c, stub, n);
    var line := stub[n];
    if Tagged(st, line) && st.structName == job.message.name && EndsWithBacktick(line)
       && ToLowerFirst(FieldName(line)) == job.message.fields[k].name {
      JobsExactly(f.messages);
      var t :| 0 <= t < |jobs| && jobs[t] == job;
      ApplyJobsEntry(start, jobs, f.locations, t, k);
      TaggedStep(c, st, line);
    }
  }

  /**
   * The same for the line protoc-gen-go writes for a field: tab, Go name, tab,
   * type, tab, backtick-quoted tags.  The Go name is the descriptor's field name
   * with its first letter upper-cased.
   */
  lemma GeneratedFieldLineGetsItsComment(start: CommentMap, f: FileDescriptor, stub: seq<string>, n: int,
                                         job: Job, k: int, field: string, typ: string, tag: string)
    requires NoDollar(start) && NoDollarComments(f.locations) && WellNamed(f.messages)
    requires Harvested(f.messages, job) && 0 <= k < |job.message.fields|
    requires 0 <= n < |stub| && job.message.name != ""
    requires field != [] && 'A' <= field[0] <= 'Z' && ToLowerFirst(field) == job.message.fields[k].name
    requires typ != [] && '\t' !in typ && '\t' !in tag
    requires stub[n] == "\t" + field + "\t" + typ + "\t`" + tag + "`"
    ensures var c := Harvest(start, f.messages, f.locations);
            NoDollar(c)
            && (StateAt(c, stub, n) == RewriteState(false, job.message.name)
                ==> RewriteLines(c, stub)[n]
                    == "\t" + field + "\t" + typ + "\t`" + tag + " "
                       + TrailingComment(job.path + [FieldTag, k], f.locations) + "`")
  {
    var c := Harvest(start, f.messages, f.locations);
    var jobs := Jobs(f.messages);
    ApplyJobsNoDollar(start, jobs, f.locations);
    if StateAt(c, stub, n) == RewriteState(false, job.message.name) {
      JobsExactly(f.messages);
      var t :| 0 <= t < |jobs| && jobs[t] == job;
      ApplyJobsEntry(start, jobs, f.locations, t, k);
      FieldStep(c, job.message.name, field, typ, tag);
    }
  }
}
