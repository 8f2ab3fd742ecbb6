/**
 * The output directory: one text file per date, opened in append mode for
 * every record. A file that does not exist reads as empty and is created by
 * the first append.
 */
module LogStore {
  import opened Wrappers
  import opened Records

  type Files = map<string, string>

  /** The text of file `name`; a missing file is empty. */
  function FileText(files: Files, name: string): string
  {
    if name in files then files[name] else ""
  }

  /** The directory after `text` is written to `name` in append mode. */
  function Appended(files: Files, name: string, text: string): (r: Files)
    ensures r.Keys == files.Keys + {name}
    ensures FileText(files, name) <= r[name]
    ensures forall other :: other in files && other != name ==> r[other] == files[other]
  {
    files[name := FileText(files, name) + text]
  }

  /**
   * Appending never rewrites: the file written to keeps its old text as a
   * prefix and gains exactly `text`; every other file is untouched.
   */
  lemma AppendOnly(files: Files, name: string, text: string)
    ensures FileText(Appended(files, name, text), name) == FileText(files, name) + text
    ensures FileText(files, name) <= FileText(Appended(files, name, text), name)
    ensures forall other :: other != name ==>
      FileText(Appended(files, name, text), other) == FileText(files, other)
    ensures Appended(files, name, text).Keys == files.Keys + {name}
  {
  }

  /**
   * Appending a formatted record adds exactly one line to the file of its
   * date, and that line reads back as the record.
   */
  lemma AppendRecordAddsOneLine(files: Files, r: LogRecord)
    requires Plain(r.date) && Plain(r.time)
    ensures Count(FileText(Appended(files, r.date, Format(r)), r.date), '\n')
         == Count(FileText(files, r.date), '\n') + 1
    ensures var text := FileText(Appended(files, r.date, Format(r)), r.date);
      ParseRecord(text[|FileText(files, r.date)|..]) == Some(r)
  {
    var before := FileText(files, r.date);
    var after := FileText(Appended(files, r.date, Format(r)), r.date);
    assert after == before + Format(r);
    assert after[|before|..] == Format(r);
    CountAppend(before, Format(r), '\n');
    FormatIsOneLine(r);
    ParseFormat(r);
  }

  /** Appending `a` and then `b` leaves the same directory as appending `a + b` once. */
  lemma AppendTwice(files: Files, name: string, a: string, b: string)
    ensures Appended(Appended(files, name, a), name, b) == Appended(files, name, a + b)
  {
    assert FileText(files, name) + a + b == FileText(files, name) + (a + b);
  }

  /** The directory as mutable state, updated in place by each append. */
  class LogDirectory {
    var files: Files

    constructor (initial: Files)
      ensures files == initial
    {
      files := initial;
    }

    function Text(name: string): string
      reads this
    {
      FileText(files, name)
    }

    /** `open(join(dir, name), "a+").write(text)`. */
    method Append(name: string, text: string)
      modifies this
      ensures files == Appended(old(files), name, text)
      ensures Text(name) == old(Text(name)) + text
      ensures forall other :: other != name ==> Text(other) == old(Text(other))
    {
      files := files[name := Text(name) + text];
    }
  }
}
