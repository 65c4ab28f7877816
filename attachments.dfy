/** `extractText`: every attachment whose file type is on the allow-list and
    whose download succeeds appends its content to the prompt, as a fenced
    block labelled with the file name, in attachment order. A failed download
    skips that attachment only.

    The download (and, for `pdf`, the text extraction) is an input: the
    attachment carries what `downloadAndReadFile` produced, or that it threw. */
module Attachments {

  datatype Download = Fetched(content: string) | FetchFailed

  datatype Attachment = Attachment(name: string, download: Download)

  /** `fileTypes` */
  const FileTypes: seq<string> :=
    ["html", "js", "css", "json", "xml", "csv", "py", "java", "sql", "log", "md", "txt", "pdf"]

  /** `name.split('.').pop()`: the text after the last `.`, the whole name
      when there is none, and the empty string when the name ends with `.`. */
  function LastSegment(name: string): (r: string)
    ensures |r| <= |name| && r == name[|name| - |r|..]
    ensures forall k :: 0 <= k < |r| ==> r[k] != '.'
    ensures |r| < |name| ==> name[|name| - |r| - 1] == '.'
    decreases |name|
  {
    if name == [] || name[|name| - 1] == '.' then []
    else LastSegment(name[..|name| - 1]) + [name[|name| - 1]]
  }

  function LowerChar(c: char): char
  {
    if 'A' <= c <= 'Z' then (c as int + 32) as char else c
  }

  /** `toLowerCase()` on ASCII letters. */
  function Lower(s: string): (r: string)
    ensures |r| == |s|
    ensures forall k :: 0 <= k < |s| ==> r[k] == LowerChar(s[k])
    decreases |s|
  {
    if s == [] then [] else [LowerChar(s[0])] + Lower(s[1..])
  }

  /** `list.includes(t)` */
  predicate Includes(list: seq<string>, t: string)
    decreases |list|
  {
    list != [] && (list[0] == t || Includes(list[1..], t))
  }

  /** `attachment.name.split('.').pop().toLowerCase()` */
  function FileType(name: string): string
  {
    Lower(LastSegment(name))
  }

  predicate Allowed(name: string)
  {
    Includes(FileTypes, FileType(name))
  }

  /** The block appended for one attachment. */
  function Block(name: string, content: string): string
  {
    "\n\n[`" + name + "` File Content]:\n```\n" + content + "\n```"
  }

  /** What one attachment adds to the prompt. */
  function Contribution(a: Attachment): string
  {
    if Allowed(a.name) && a.download.Fetched? then Block(a.name, a.download.content) else ""
  }

  /** The texts `f` gives for the elements of `xs`, one after another. */
  function ConcatMap<T>(f: T -> string, xs: seq<T>): string
    decreases |xs|
  {
    if xs == [] then "" else ConcatMap(f, xs[..|xs| - 1]) + f(xs[|xs| - 1])
  }

  /** What a list of attachments adds, in order. */
  function Contributions(attachments: seq<Attachment>): string
  {
    ConcatMap(Contribution, attachments)
  }

  /** `extractText(message, messageContent)` */
  method ExtractText(attachments: seq<Attachment>, messageContent: string) returns (r: string)
    ensures r == messageContent + Contributions(attachments)
  {
    r := messageContent;
    assert r == messageContent + Contributions(attachments[..0]) by {
      assert attachments[..0] == [];
      assert messageContent + "" == messageContent;
    }
    for i := 0 to |attachments|
      invariant r == messageContent + Contributions(attachments[..i])
    {
      ghost var before := r;
      r := AddAttachment(r, attachments[i]);
      ContributesIff(attachments[i]);
      assert r == before + Contribution(attachments[i]);
      ContributionsSnoc(attachments, i);
      AppendAssociates(messageContent, Contributions(attachments[..i]), Contribution(attachments[i]));
    }
    assert attachments[..|attachments|] == attachments;
  }

  /** Lines 229-242: one turn of the loop over the attachments. */
  method AddAttachment(text: string, attachment: Attachment) returns (r: string)
    ensures Allowed(attachment.name) && attachment.download.Fetched? ==>
      r == text + Block(attachment.name, attachment.download.content)
    ensures !(Allowed(attachment.name) && attachment.download.Fetched?) ==> r == text
  {
    r := text;
    var fileType := FileType(attachment.name);
    if Includes(FileTypes, fileType) {
      match attachment.download
      case Fetched(fileContent) =>
        r := r + Block(attachment.name, fileContent);
      case FetchFailed =>
        // the error is logged and the attachment skipped
    }
  }

  lemma AppendAssociates(a: string, b: string, c: string)
    ensures (a + b) + c == a + (b + c)
  {
  }

  lemma ContributionsSnoc(attachments: seq<Attachment>, i: nat)
    requires i < |attachments|
    ensures Contributions(attachments[..i + 1]) == Contributions(attachments[..i]) + Contribution(attachments[i])
  {
    assert attachments[..i + 1][..i] == attachments[..i];
  }

  // ---- Properties --------------------------------------------------------

  /** Contributions compose: the blocks of two lists of attachments are the
      blocks of the first followed by those of the second. */
  lemma ContributionsAppend(a: seq<Attachment>, b: seq<Attachment>)
    ensures Contributions(a + b) == Contributions(a) + Contributions(b)
  {
    ConcatMapAppend(Contribution, a, b);
  }

  lemma {:induction false} ConcatMapAppend<T>(f: T -> string, a: seq<T>, b: seq<T>)
    ensures ConcatMap(f, a + b) == ConcatMap(f, a) + ConcatMap(f, b)
    decreases |b|
  {
    if b == [] {
      assert a + b == a;
    } else {
      var b' := b[..|b| - 1];
      assert (a + b)[..|a + b| - 1] == a + b';
      ConcatMapAppend(f, a, b');
    }
  }

  /** In attachment order: the text the attachments add is what those
      before attachment `i` add, then attachment `i`'s block, then what those
      after it add. */
  lemma InAttachmentOrder(attachments: seq<Attachment>, i: nat)
    requires i < |attachments|
    ensures Contributions(attachments) ==
      Contributions(attachments[..i]) + Contribution(attachments[i]) + Contributions(attachments[i + 1..])
  {
    assert attachments == attachments[..i] + [attachments[i]] + attachments[i + 1..];
    ContributionsAppend(attachments[..i] + [attachments[i]], attachments[i + 1..]);
    ContributionsAppend(attachments[..i], [attachments[i]]);
    assert Contributions([attachments[i]]) == Contribution(attachments[i]) by {
      assert [attachments[i]][..0] == [];
    }
  }

  /** An attachment adds text exactly when its type is allowed and its
      download succeeded, and then it adds exactly its block. */
  lemma ContributesIff(a: Attachment)
    ensures Contribution(a) != "" <==> Allowed(a.name) && a.download.Fetched?
    ensures Contribution(a) != "" ==> Contribution(a) == Block(a.name, a.download.content)
  {
    if Allowed(a.name) && a.download.Fetched? {
      assert Contribution(a)[0] == '\n';
    }
  }

  /** The prompt comes back unchanged exactly when no attachment is both
      allowed and downloaded. */
  lemma UnchangedIff(attachments: seq<Attachment>)
    ensures Contributions(attachments) == "" <==>
      forall i :: 0 <= i < |attachments| ==> !(Allowed(attachments[i].name) && attachments[i].download.Fetched?)
  {
    ConcatMapEmptyIff(Contribution, attachments);
    forall i | 0 <= i < |attachments| {
      ContributesIff(attachments[i]);
    }
  }

  lemma {:induction false} ConcatMapEmptyIff<T>(f: T -> string, xs: seq<T>)
    ensures ConcatMap(f, xs) == "" <==> forall i :: 0 <= i < |xs| ==> f(xs[i]) == ""
    decreases |xs|
  {
    if xs != [] {
      var init := xs[..|xs| - 1];
      ConcatMapEmptyIff(f, init);
      assert forall i :: 0 <= i < |init| ==> init[i] == xs[i];
    }
  }

  /** `includes` finds an entry wherever it stands in the list. */
  lemma {:induction false} IncludesIff(list: seq<string>, t: string)
    ensures Includes(list, t) <==> t in list
    decreases |list|
  {
    if list != [] {
      IncludesIff(list[1..], t);
      assert list == [list[0]] + list[1..];
    }
  }

  /** The file type is what follows the last `.`, lower-cased. */
  lemma ExtensionDecides(prefix: string, ext: string)
    requires '.' !in ext
    ensures FileType(prefix + "." + ext) == Lower(ext)
  {
    LastSegmentAfterDot(prefix, ext);
  }

  lemma {:induction false} LastSegmentAfterDot(prefix: string, ext: string)
    requires '.' !in ext
    ensures LastSegment(prefix + "." + ext) == ext
    decreases |ext|
  {
    var name := prefix + "." + ext;
    if ext == [] {
      assert name[|name| - 1] == '.';
    } else {
      var init := ext[..|ext| - 1];
      assert name[..|name| - 1] == prefix + "." + init;
      assert ext[|ext| - 1] in ext;
      LastSegmentAfterDot(prefix, init);
      assert ext == init + [ext[|ext| - 1]];
    }
  }

  /** The file type does not depend on the case of the name: an upper-case
      extension is accepted exactly when its lower-case spelling is. */
  lemma CaseDoesNotMatter(name: string)
    ensures FileType(Lower(name)) == FileType(name)
    ensures Allowed(Lower(name)) <==> Allowed(name)
  {
    LastSegmentOfLower(name);
    var seg := LastSegment(name);
    LowerIdempotent(seg);
  }

  lemma LowerIdempotent(s: string)
    ensures Lower(Lower(s)) == Lower(s)
  {
    var once := Lower(s);
    forall k | 0 <= k < |s|
      ensures Lower(once)[k] == once[k]
    {
      var c := s[k];
      if 'A' <= c <= 'Z' {
        assert 'a' <= LowerChar(c) <= 'z';
      }
    }
  }

  lemma {:induction false} LastSegmentOfLower(name: string)
    ensures LastSegment(Lower(name)) == Lower(LastSegment(name))
    decreases |name|
  {
    if name != [] {
      var init, last := name[..|name| - 1], name[|name| - 1];
      var low := Lower(name);
      LowerSplits(init, last);
      assert name == init + [last];
      assert low[..|low| - 1] == Lower(init) && low[|low| - 1] == LowerChar(last);
      LastSegmentOfLower(init);
      if last != '.' {
        LowerSplits(LastSegment(init), last);
      }
    }
  }

  lemma LowerSplits(s: string, c: char)
    ensures Lower(s + [c]) == Lower(s) + [LowerChar(c)]
    ensures LowerChar(c) == '.' <==> c == '.'
  {
  }

  /** The extension decides: an attachment `name` = `prefix.ext` adds its
      block when `ext`, lower-cased, is on the list and the download
      succeeded, and adds nothing when the extension is not on the list,
      whatever the download gave. */
  lemma ExtensionContributes(name: string, prefix: string, ext: string, d: Download)
    requires name == prefix + "." + ext && '.' !in ext
    ensures Lower(ext) in FileTypes && d.Fetched? ==> Contribution(Attachment(name, d)) == Block(name, d.content)
    ensures Lower(ext) !in FileTypes ==> Contribution(Attachment(name, d)) == ""
  {
    ExtensionDecides(prefix, ext);
    IncludesIff(FileTypes, Lower(ext));
    ContributesIff(Attachment(name, d));
  }

  /** Every downloaded text file, whatever its name before `.txt`, adds its
      content as a fenced block labelled with its name. */
  lemma TextFileContributes(prefix: string, content: string)
    ensures Contribution(Attachment(prefix + ".txt", Fetched(content))) == Block(prefix + ".txt", content)
  {
    TxtListed();
    ExtensionContributes(prefix + ".txt", prefix, "txt", Fetched(content));
  }

  lemma TxtListed()
    ensures Lower("txt") in FileTypes
  {
    assert Lower("txt") == "txt";
    assert FileTypes[11] == "txt";
  }
}
