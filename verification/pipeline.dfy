/** `process_stack_file` followed by `copy_stack_file_with_comments`, for one
    stack file. Reading and writing files, and the YAML parser and emitter,
    are outside the model: `load` and `dump` stand for them. */
module Pipeline {
  import opened Text
  import opened Yaml
  import opened Volumes
  import opened DynamicValues
  import opened Comments
  import opened Reorder

  /** What processing one file leaves at its destination. */
  datatype Outcome =
    | Skipped                                          // the source file does not parse: logged, nothing written
    | Aborted(failure: Failure)                        // the rewrite raised: the whole run stops
    | Unannotated(text: string)                        // the temporary copy does not parse back: it stays as written
    | Written(startComment: string, document: seq<Entry>) // the annotated, reordered document

  /** `load(text)` is the parsed root mapping, or None when parsing fails;
      `dump(doc)` is the text the emitter writes for `doc`. Reading back
      what the emitter wrote gives the same document, for every document
      the loader itself could have built: one whose mappings hold no key
      twice at any depth and whose non-string scalars are texts `plain`
      accepts (see `Yaml.WellFormedValue`). */
  ghost predicate RoundTrip(load: string -> Option<seq<Entry>>, dump: seq<Entry> -> string,
                            plain: string -> bool)
  {
    forall d :: WellFormed(d, plain) ==> load(dump(d)) == Some(d)
  }

  /** One file: convert the volumes, write the converted document to the
      temporary copy, read that copy back, and annotate and reorder it. The
      comments and the dynamic values are taken from the temporary copy,
      that is, from the converted document as the emitter wrote it. */
  function ProcessStackFile(raw: string, load: string -> Option<seq<Entry>>,
                            dump: seq<Entry> -> string, cluster: Cluster): Outcome
  {
    match load(raw)
    case None => Skipped
    case Some(stack) =>
      match RewriteVolumes(stack, cluster)
      case Err(f) => Aborted(f)
      case Ok(converted) =>
        var text := dump(converted);
        match load(text)
        case None => Unannotated(text)
        case Some(reloaded) =>
          Written(CombinedComments(ExtractExistingComments(text), ScanDynamicValues(text)),
                  Rearrange(reloaded))
  }

  /** When the emitter's output parses back to the same document, a file
      that parses and converts is written with its converted document in
      canonical order, and with a start comment whose lines are the leading
      comments of the converted text (a single empty line when there are
      none) followed by the summary block of that text's dynamic values. */
  lemma ProcessWritten(raw: string, load: string -> Option<seq<Entry>>,
                       dump: seq<Entry> -> string, plain: string -> bool, cluster: Cluster)
    requires RoundTrip(load, dump, plain)
    requires load(raw).Some? && WellFormed(load(raw).value, plain)
    requires RewriteVolumes(load(raw).value, cluster).Ok?
    ensures var converted := RewriteVolumes(load(raw).value, cluster).value;
      var text := dump(converted);
      var existing := ExtractExistingComments(text);
      var r := ProcessStackFile(raw, load, dump, cluster);
      && r.Written?
      && r.document == Canonical(converted)
      && multiset(r.document) == multiset(converted)
      && SplitLines(r.startComment)
         == FirstLines(existing) + BlockLines(ScanDynamicValues(text))
  {
    var stack := load(raw).value;
    var converted := RewriteVolumes(stack, cluster).value;
    var text := dump(converted);
    RewriteVolumesWellFormed(stack, cluster, plain);
    assert load(text) == Some(converted);
    RewriteVolumesLaw(stack, cluster);
    RearrangeLaw(converted);
    ScanNoLineBreak(text);
    CombinedCommentsLines(ExtractExistingComments(text), ScanDynamicValues(text));
  }

  /** Whether the rewrite leaves a stack alone depends on its `volumes`
      entry only. */
  lemma FixedByVolumesEntry(a: seq<Entry>, b: seq<Entry>, cluster: Cluster)
    requires RewriteVolumes(a, cluster) == Ok(a)
    requires Lookup(b, "volumes") == Lookup(a, "volumes")
    ensures RewriteVolumes(b, cluster) == Ok(b)
  {
    match Lookup(a, "volumes") {
      case None =>
      case Some(Map(volumes)) =>
        var converted := ConvertEntries(volumes, cluster).value;
        AssignLaws(a, "volumes", Map(converted));
        assert converted == volumes;
        AssignLaws(b, "volumes", Map(converted));
      case Some(_) =>
    }
  }

  /** Processing the written document again gives back the same document:
      its volumes are converted already, and it is in canonical order. */
  lemma ReprocessFixedPoint(raw: string, raw': string, load: string -> Option<seq<Entry>>,
                            dump: seq<Entry> -> string, plain: string -> bool, cluster: Cluster)
    requires RoundTrip(load, dump, plain)
    requires load(raw).Some? && WellFormed(load(raw).value, plain)
    requires ProcessStackFile(raw, load, dump, cluster).Written?
    requires load(raw') == Some(ProcessStackFile(raw, load, dump, cluster).document)
    ensures ProcessStackFile(raw', load, dump, cluster).Written?
    ensures ProcessStackFile(raw', load, dump, cluster).document
         == ProcessStackFile(raw, load, dump, cluster).document
  {
    var stack := load(raw).value;
    var converted := RewriteVolumes(stack, cluster).value;
    RewriteVolumesWellFormed(stack, cluster, plain);
    assert load(dump(converted)) == Some(converted);
    var doc := Rearrange(converted);
    RearrangeWellFormed(converted, plain);
    assert ProcessStackFile(raw, load, dump, cluster).document == doc;
    RewriteVolumesLaw(stack, cluster);
    RewriteVolumesIdempotent(stack, cluster);
    FixedByVolumesEntry(converted, doc, cluster);
    assert load(dump(doc)) == Some(doc);
    RearrangeIdempotent(converted);
  }

  /** The worked example: a text in which `${FOO_BAR}` is the only
      placeholder, `secrets:` occurs and `configs:` does not is summarised
      by exactly the lines `# - ${FOO_BAR}` and `# - secrets`, in that
      order, after the header. */
  lemma AnnotationExample(content: string)
    requires Occurs(content, "${FOO_BAR}") && Occurs(content, "secrets:")
    requires !Occurs(content, "configs:")
    requires forall x :: IsPlaceholder(x) && Occurs(content, x) ==> x == "${FOO_BAR}"
    ensures BlockLines(ScanDynamicValues(content))
         == ["# Dynamic Values in this file:", "# - ${FOO_BAR}", "# - secrets"]
  {
    ScanDynamicValuesLaw(content);
    assert IsPlaceholder("${FOO_BAR}");
    assert ScanDynamicValues(content) == {"${FOO_BAR}", "secrets"};
    CommentBlockExample();
  }
}
