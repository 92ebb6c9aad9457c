/**
 * The input form (components/ExamInput.tsx): free text, the list of
 * attachments read so far, and what the generate button hands on.
 */
module ExamInput {
  import GeminiService

  /** One attachment as read: a data URL, its MIME type and the file name. */
  datatype Attachment = Attachment(data: string, mimeType: string, name: string)

  /**
   * `s.filter((_, i) => i !== index)`: every element whose position is not
   * `index`, in order.
   */
  function RemoveAt<T>(s: seq<T>, index: int): (r: seq<T>)
    ensures |r| == if 0 <= index < |s| then |s| - 1 else |s|
  {
    if s == [] then []
    else if |s| - 1 == index then RemoveAt(s[..|s| - 1], index)
    else RemoveAt(s[..|s| - 1], index) + [s[|s| - 1]]
  }

  /**
   * Removing by position drops exactly the element at `index` and keeps the
   * others in order; a position outside the list changes nothing.
   */
  lemma {:induction false} RemoveAtSpec<T>(s: seq<T>, index: int)
    ensures 0 <= index < |s| ==> RemoveAt(s, index) == s[..index] + s[index + 1..]
    ensures !(0 <= index < |s|) ==> RemoveAt(s, index) == s
  {
    if s != [] {
      var n := |s|;
      var init := s[..n - 1];
      RemoveAtSpec(init, index);
      if n - 1 == index {
        assert init == s[..index] + s[index + 1..];
      } else if 0 <= index < n - 1 {
        assert init[..index] == s[..index];
        assert init[index + 1..] + [s[n - 1]] == s[index + 1..];
      } else {
        assert init + [s[n - 1]] == s;
      }
    }
  }

  /** The attachments without their names, as `onGenerate` receives them (ExamInput.tsx:73). */
  function Project(files: seq<Attachment>): (r: seq<GeminiService.FileData>)
    ensures |r| == |files|
    ensures forall i :: 0 <= i < |files| ==>
      r[i] == GeminiService.FileData(files[i].data, files[i].mimeType)
  {
    seq(|files|, i requires 0 <= i < |files| => GeminiService.FileData(files[i].data, files[i].mimeType))
  }

  /** A completed read adds exactly one payload entry, at the end, without the file name. */
  lemma ProjectAppend(files: seq<Attachment>, a: Attachment)
    ensures Project(files + [a]) == Project(files) + [GeminiService.FileData(a.data, a.mimeType)]
  {
    var l := Project(files + [a]);
    var r := Project(files) + [GeminiService.FileData(a.data, a.mimeType)];
    forall i | 0 <= i < |l| ensures l[i] == r[i] {
      if i < |files| {
        assert (files + [a])[i] == files[i];
      }
    }
  }

  /** Removing an attachment removes exactly its payload entry. */
  lemma ProjectRemoveAt(files: seq<Attachment>, index: int)
    ensures Project(RemoveAt(files, index)) == RemoveAt(Project(files), index)
  {
    RemoveAtSpec(files, index);
    RemoveAtSpec(Project(files), index);
    if 0 <= index < |files| {
      var kept := files[..index] + files[index + 1..];
      var l := Project(kept);
      var r := Project(files)[..index] + Project(files)[index + 1..];
      forall i | 0 <= i < |l| ensures l[i] == r[i] {
        if i < index {
          assert kept[i] == files[i];
        } else {
          assert kept[i] == files[i + 1];
        }
      }
    }
  }

  /** The state of the input form. */
  class Input {
    var text: string
    var files: seq<Attachment>

    /** The form starts empty (ExamInput.tsx:9-10). */
    constructor ()
      ensures text == "" && files == []
    {
      text := "";
      files := [];
    }

    /** Typing into the content area (ExamInput.tsx:49). */
    method SetText(t: string)
      modifies this
      ensures text == t && files == old(files)
    {
      text := t;
    }

    /**
     * A file read has completed with `result` (ExamInput.tsx:18-25): a
     * non-empty result is appended as one entry at the end; an empty one,
     * which stands for a missing result, is ignored.
     */
    method FileLoaded(result: string, mimeType: string, name: string)
      modifies this
      ensures result != "" ==> files == old(files) + [Attachment(result, mimeType, name)]
      ensures result == "" ==> files == old(files)
      ensures text == old(text)
    {
      if result != "" {
        files := files + [Attachment(result, mimeType, name)];
      }
    }

    /** The remove button of attachment `index` (ExamInput.tsx:31-33). */
    method RemoveFile(index: int)
      modifies this
      ensures files == RemoveAt(old(files), index)
      ensures 0 <= index < |old(files)| ==> files == old(files)[..index] + old(files)[index + 1..]
      ensures !(0 <= index < |old(files)|) ==> files == old(files)
      ensures text == old(text)
    {
      RemoveAtSpec(files, index);
      files := RemoveAt(files, index);
    }

    /** The generate button is disabled when there is neither text nor an attachment (ExamInput.tsx:74). */
    function GenerateDisabled(): (disabled: bool)
      reads this
      ensures !disabled <==> |GeminiService.Parts(text, Project(files))| >= 2
    {
      text == "" && |files| == 0
    }

    /** What a click on generate hands to the application (ExamInput.tsx:73). */
    function GeneratePayload(): (r: (string, seq<GeminiService.FileData>))
      reads this
      ensures r.0 == text && r.1 == Project(files)
      ensures !GenerateDisabled() <==> r.0 != "" || r.1 != []
    {
      (text, Project(files))
    }
  }

  /**
   * Whenever the generate button is enabled, the digitization request
   * built from the payload carries some content after its fixed
   * instruction, and its attachments are the form's, in order.
   */
  lemma EnabledRequestHasContent(input: Input)
    requires !input.GenerateDisabled()
    ensures input.GeneratePayload().0 == input.text
    ensures |GeminiService.Parts(input.GeneratePayload().0, input.GeneratePayload().1)| >= 2
  {
  }
}
