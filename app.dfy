/** The application window `App` as far as labels go: the labels it holds,
    `read_labels` filling them from the label file of the current image and
    `export` writing them back. The file system is a map from file name to
    contents, passed in and returned. */
module Labeller {
  import opened Wrappers
  import opened LabelFile

  /** A label: its type and two corners in image coordinates. The canvas items
      it is drawn with are not part of this model. */
  class Label {
    const kind: string
    const x: Decimal
    const y: Decimal
    const x1: Decimal
    const y1: Decimal

    constructor (r: LabelRecord)
      ensures Record() == r
    {
      kind, x, y, x1, y1 := r.kind, r.x, r.y, r.x1, r.y1;
    }

    /** What the label file stores of this label. */
    function Record(): LabelRecord
    {
      LabelRecord(kind, x, y, x1, y1)
    }
  }

  /** The stored part of each label, in order. */
  function Records(labels: seq<Label>): seq<LabelRecord>
  {
    if labels == [] then [] else Records(labels[..|labels| - 1]) + [labels[|labels| - 1].Record()]
  }

  lemma RecordsAppend(labels: seq<Label>, l: Label)
    ensures Records(labels + [l]) == Records(labels) + [l.Record()]
  {
    assert (labels + [l])[..|labels|] == labels;
  }

  class App {
    /** The image on show; its label file is named after it. */
    var fileName: string
    /** The labels created so far, in order. */
    var labelsCreated: seq<Label>

    /** `__init__` showing the image `fileName`: it starts with no labels and
        then, through `__create_widgets`, reads the labels of the image's label
        file in `files`. */
    constructor (fileName: string, files: map<string, string>)
      ensures this.fileName == fileName
      ensures var name := TextFileNameAsWritten(fileName);
        (name !in files ==> labelsCreated == []) &&
        (name in files ==> Records(labelsCreated) == ParseLines(Lines(files[name])).labels)
    {
      this.fileName := fileName;
      labelsCreated := [];
      new;
      var _ := ReadLabels(files);
    }

    /** `read_labels` on the file system `files`. Without a label file there
        are no labels. Otherwise the labels are the lines read one by one; a
        line that does not read stops the loop with its error, and the labels
        of the lines before it stay. */
    method ReadLabels(files: map<string, string>) returns (error: Option<LineError>)
      modifies this`labelsCreated
      ensures var name := TextFileNameAsWritten(fileName);
        (name !in files ==> labelsCreated == [] && error == None) &&
        (name in files ==>
           var read := ParseLines(Lines(files[name]));
           Records(labelsCreated) == read.labels && error == read.error)
    {
      var name := TextFileNameAsWritten(fileName);
      labelsCreated := [];
      error := None;
      if name !in files {
        return;
      }
      var lines := Lines(files[name]);
      ghost var read := ParseLines(lines);
      var i := 0;
      while i < |lines|
        invariant 0 <= i <= |lines|
        invariant Records(labelsCreated) + ParseLines(lines[i..]).labels == read.labels
        invariant ParseLines(lines[i..]).error == read.error
      {
        var line := ParseLine(lines[i]);
        if line.Failure? {
          ReadStops(Records(labelsCreated), lines, i, read);
          error := Some(line.error);
          return;
        }
        var created := new Label(line.value);
        ReadContinues(Records(labelsCreated), lines, i, read);
        RecordsAppend(labelsCreated, created);
        labelsCreated := labelsCreated + [created];
        i := i + 1;
      }
      assert lines[i..] == [];
    }

    /** `export` on the file system `files`: the label file of the image is
        (over)written with one line per label, in order. */
    method Export(files: map<string, string>) returns (written: map<string, string>)
      ensures written == files[TextFileNameAsWritten(fileName) := ExportText(Records(labelsCreated))]
    {
      var text := "";
      var i := 0;
      while i < |labelsCreated|
        invariant 0 <= i <= |labelsCreated|
        invariant text == ExportText(Records(labelsCreated[..i]))
      {
        text := WriteLine(text, labelsCreated, i);
        i := i + 1;
      }
      assert labelsCreated[..i] == labelsCreated;
      written := files[TextFileNameAsWritten(fileName) := text];
    }
  }

  /** The text of the file after `f.write` of the line of label `i`. */
  function WriteLine(text: string, labels: seq<Label>, i: nat): (r: string)
    requires i < |labels| && text == ExportText(Records(labels[..i]))
    ensures r == ExportText(Records(labels[..i + 1]))
  {
    ExportStep(labels, i);
    text + FormatLine(labels[i].Record())
  }

  /** Writing one more label appends its line to the text. */
  lemma ExportStep(labels: seq<Label>, i: nat)
    requires i < |labels|
    ensures ExportText(Records(labels[..i + 1])) == ExportText(Records(labels[..i])) + FormatLine(labels[i].Record())
  {
    assert labels[..i + 1] == labels[..i] + [labels[i]];
    RecordsAppend(labels[..i], labels[i]);
    ExportTextAppend(Records(labels[..i]), labels[i].Record());
  }

  /** A line that does not read ends the reading: the labels read so far
      are all there are, and its error is the error of the whole file. */
  lemma ReadStops(before: seq<LabelRecord>, lines: seq<string>, i: nat, read: Parsed)
    requires i < |lines| && ParseLine(lines[i]).Failure?
    requires before + ParseLines(lines[i..]).labels == read.labels
    requires ParseLines(lines[i..]).error == read.error
    ensures before == read.labels && Some(ParseLine(lines[i]).error) == read.error
  {
    assert lines[i..][0] == lines[i];
  }

  /** A line that reads adds its label after those read so far, and the
      reading goes on with the next line. */
  lemma ReadContinues(before: seq<LabelRecord>, lines: seq<string>, i: nat, read: Parsed)
    requires i < |lines| && ParseLine(lines[i]).Success?
    requires before + ParseLines(lines[i..]).labels == read.labels
    requires ParseLines(lines[i..]).error == read.error
    ensures (before + [ParseLine(lines[i]).value]) + ParseLines(lines[i + 1..]).labels == read.labels
    ensures ParseLines(lines[i + 1..]).error == read.error
  {
    assert lines[i..][0] == lines[i];
    assert lines[i..][1..] == lines[i + 1..];
  }

  /** Exporting and reading back: the label file `export` writes for labels
      with valid types reads as the same labels, in order, without error. */
  lemma ExportThenRead(files: map<string, string>, fileName: string, labels: seq<Label>)
    requires forall k :: 0 <= k < |labels| ==> ValidKind(labels[k].kind)
    ensures var name := TextFileNameAsWritten(fileName);
      var written := files[name := ExportText(Records(labels))];
      name in written && ParseLines(Lines(written[name])) == Parsed(Records(labels), None)
  {
    var rs := Records(labels);
    RecordsKinds(labels);
    ExportRoundTrip(rs);
  }

  lemma {:induction false} RecordsKinds(labels: seq<Label>)
    ensures |Records(labels)| == |labels|
    ensures forall k :: 0 <= k < |labels| ==> Records(labels)[k] == labels[k].Record()
  {
    if labels != [] {
      RecordsKinds(labels[..|labels| - 1]);
    }
  }
}
