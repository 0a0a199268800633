/** The bookkeeping of the new-card form (src/components/AddCardModal.tsx):
    submit validation, the URL each attachment contributes, removing an
    attachment, and appending the result of an upload. The upload call, the
    local preview URLs and the editor widgets are parameters or left out. */
module AddCardForm {
  import opened Types
  import MainBoard

  /** An attachment: its local preview URL and, once uploaded, its stored URL. */
  datatype MediaItem = MediaItem(preview: string, url: Option<string>)

  /** The form's state. */
  datatype Form = Form(
    name: string,
    description: string,
    media: seq<MediaItem>,
    uploading: bool)

  /** Submitting either is refused with an alert (nothing is added and the
      form stays open), or calls `onAdd` with these arguments and then
      closes the form. */
  datatype Submission =
    | Blocked
    | Submitted(name: string, description: string, mediaUrls: seq<string>, storyPoints: int)

  /** What the upload call gave back: an error, or the stored paths. */
  datatype Upload = UploadFailed | Uploaded(paths: seq<string>)

  /** The form after a drop, and whether the failure alert was raised. */
  datatype Drop = Drop(form: Form, alerted: bool)

  /** ECMAScript WhiteSpace and LineTerminator code points, which
      `String.prototype.trim` removes. */
  predicate IsWhitespace(c: char) {
    || c == '\t' || c == '\n' || c == '\U{000B}' || c == '\U{000C}' || c == '\r' || c == ' '
    || c == '\U{00A0}' || c == '\U{1680}' || ('\U{2000}' <= c <= '\U{200A}')
    || c == '\U{2028}' || c == '\U{2029}' || c == '\U{202F}' || c == '\U{205F}'
    || c == '\U{3000}' || c == '\U{FEFF}'
  }

  /** Every character of `s` is whitespace (the empty string included). */
  predicate Blank(s: string) {
    forall i :: 0 <= i < |s| ==> IsWhitespace(s[i])
  }

  /** `s` with its leading whitespace removed. */
  function TrimStart(s: string): (r: string)
    ensures |r| <= |s| && r == s[|s| - |r|..]
    ensures r == [] || !IsWhitespace(r[0])
    ensures Blank(s[..|s| - |r|])
  {
    if s != [] && IsWhitespace(s[0]) then TrimStart(s[1..]) else s
  }

  /** `s` with its trailing whitespace removed. */
  function TrimEnd(s: string): (r: string)
    ensures |r| <= |s| && r == s[..|r|]
    ensures r == [] || !IsWhitespace(r[|r| - 1])
    ensures Blank(s[|r|..])
  {
    if s != [] && IsWhitespace(s[|s| - 1]) then TrimEnd(s[..|s| - 1]) else s
  }

  /** `s.trim()`: neither starts nor ends with whitespace. Where it sits
      in `s` is stated by `TrimIsInner`. */
  function Trim(s: string): (r: string)
    ensures r == [] || (!IsWhitespace(r[0]) && !IsWhitespace(r[|r| - 1]))
  {
    var t := TrimStart(s);
    var r := TrimEnd(t);
    assert r != [] ==> r[0] == t[0];
    r
  }

  /** `r` is the run of `s` starting at `lead`, and everything around it
      is whitespace. */
  predicate InnerRun(s: string, lead: nat, r: string) {
    && lead + |r| <= |s|
    && (forall i :: 0 <= i < |r| ==> r[i] == s[lead + i])
    && (forall i :: 0 <= i < lead ==> IsWhitespace(s[i]))
    && (forall i :: lead + |r| <= i < |s| ==> IsWhitespace(s[i]))
  }

  /** The trimmed text is the run of `s` that starts after its leading
      whitespace, and everything cut off on either side is whitespace. */
  lemma TrimIsInner(s: string)
    ensures InnerRun(s, |s| - |TrimStart(s)|, Trim(s))
  {
    var t := TrimStart(s);
    TrimParts(s, t, TrimEnd(t));
  }

  /** Cutting a blank prefix of `s` and then a blank suffix leaves a run
      of `s` with whitespace on either side. */
  lemma TrimParts(s: string, t: string, r: string)
    requires |t| <= |s| && t == s[|s| - |t|..] && Blank(s[..|s| - |t|])
    requires |r| <= |t| && r == t[..|r|] && Blank(t[|r|..])
    ensures InnerRun(s, |s| - |t|, r)
  {
    var lead := |s| - |t|;
    assert forall i :: 0 <= i < lead ==> s[i] == s[..lead][i];
    assert forall i :: lead + |r| <= i < |s| ==> s[i] == t[|r|..][i - lead - |r|];
  }

  /** `!s.trim()` holds exactly for strings made only of whitespace. */
  lemma TrimEmptyExactly(s: string)
    ensures Trim(s) == [] <==> Blank(s)
  {
    var t := TrimStart(s);
    if Trim(s) == [] {
      assert t[|Trim(s)|..] == t;
      assert t == [];
      assert s[..|s| - |t|] == s;
    }
    if Blank(s) {
      BlankTrimStart(s);
    }
  }

  lemma {:induction false} BlankTrimStart(s: string)
    requires Blank(s)
    ensures TrimStart(s) == []
  {
    if s != [] {
      BlankTrimStart(s[1..]);
    }
  }

  /** The URL an attachment contributes: its stored URL, unless that is
      absent or empty (falsy in JavaScript), in which case its preview. */
  function MediaUrl(item: MediaItem): (u: string)
    ensures item.url.Some? && item.url.value != "" ==> u == item.url.value
    ensures item.url.None? || item.url.value == "" ==> u == item.preview
  {
    if item.url.Some? && item.url.value != "" then item.url.value else item.preview
  }

  /** The URL of every attachment, in order. */
  function MediaUrls(media: seq<MediaItem>): (r: seq<string>)
    ensures |r| == |media|
    ensures forall i :: 0 <= i < |media| ==> r[i] == MediaUrl(media[i])
  {
    seq(|media|, i requires 0 <= i < |media| => MediaUrl(media[i]))
  }

  /** The submit handler. It refuses when the name or the description is
      blank; otherwise it passes both untrimmed, one URL per attachment in
      order, and zero story points. */
  function Submit(f: Form): (r: Submission)
    ensures r.Blocked? <==> Blank(f.name) || Blank(f.description)
    ensures r.Submitted? ==>
      && r.name == f.name
      && r.description == f.description
      && r.mediaUrls == MediaUrls(f.media)
      && r.storyPoints == 0
  {
    TrimEmptyExactly(f.name);
    TrimEmptyExactly(f.description);
    if Trim(f.name) == [] || Trim(f.description) == [] then Blocked
    else Submitted(f.name, f.description, MediaUrls(f.media), 0)
  }

  /** Keeps every attachment whose position differs from `index`: an index
      in range loses exactly that item, the others keep their order; any other index changes nothing. */
  function RemoveMedia(media: seq<MediaItem>, index: int): (r: seq<MediaItem>)
    ensures 0 <= index < |media| ==> r == media[..index] + media[index + 1..]
    ensures !(0 <= index < |media|) ==> r == media
  {
    if media == [] then []
    else
      assert media == [media[0]] + media[1..];
      (if index == 0 then [] else [media[0]]) + RemoveMedia(media[1..], index - 1)
  }

  /** The items an upload adds: the k-th returned path paired with the k-th
      preview. Reading a preview past the end throws in the source, so more
      paths than previews is a failure. */
  function NewItems(paths: seq<string>, previews: seq<string>): (r: Option<seq<MediaItem>>)
    ensures r.Some? <==> |paths| <= |previews|
    ensures r.Some? ==> |r.value| == |paths|
    ensures r.Some? ==> forall k :: 0 <= k < |paths| ==> r.value[k] == MediaItem(previews[k], Some(paths[k]))
  {
    if |paths| <= |previews| then
      Some(seq(|paths|, k requires 0 <= k < |paths| => MediaItem(previews[k], Some(paths[k]))))
    else None
  }

  /** The drop handler once the upload has answered. On success the new
      items go after the existing ones; on any failure the alert is raised
      and the attachments stay as they were. Either way `uploading` ends
      false and the text fields are untouched. */
  function OnDrop(f: Form, previews: seq<string>, upload: Upload): (r: Drop)
    ensures !r.form.uploading
    ensures r.form.name == f.name && r.form.description == f.description
    ensures |f.media| <= |r.form.media| && r.form.media[..|f.media|] == f.media
    ensures r.alerted <==> upload.UploadFailed? || |upload.paths| > |previews|
    ensures r.alerted ==> r.form.media == f.media
    ensures !r.alerted ==>
      && |r.form.media| == |f.media| + |upload.paths|
      && forall k :: 0 <= k < |upload.paths| ==>
           r.form.media[|f.media| + k] == MediaItem(previews[k], Some(upload.paths[k]))
  {
    match upload
    case UploadFailed => Drop(f.(uploading := false), true)
    case Uploaded(paths) =>
      match NewItems(paths, previews)
      case None => Drop(f.(uploading := false), true)
      case Some(items) => Drop(f.(media := f.media + items, uploading := false), false)
  }

  /** Removing the item a one-file upload just appended gives the earlier
      attachments back. */
  lemma RemoveUndoesUpload(f: Form, preview: string, path: string)
    ensures var after := OnDrop(f, [preview], Uploaded([path])).form.media;
      RemoveMedia(after, |f.media|) == f.media
  {
    var after := OnDrop(f, [preview], Uploaded([path])).form.media;
    assert after[..|f.media|] == f.media;
    assert after[|f.media| + 1..] == [];
  }

  /** A blank name is refused whatever else is filled in, and spaces alone
      count as blank. */
  lemma BlankNameRefused(description: string, media: seq<MediaItem>, uploading: bool)
    ensures Submit(Form("", description, media, uploading)).Blocked?
    ensures Submit(Form("  \n", description, media, uploading)).Blocked?
  {
    assert Blank("  \n") by {
      assert IsWhitespace(' ') && IsWhitespace('\n');
    }
  }

  /** A successful submit makes the page ask the store for a card with the
      form's untrimmed name and description, one URL per attachment, and
      zero story points. The modal's own story-point argument is dropped by
      the page's three-parameter handler; both are 0. */
  lemma SubmitCreatesUnestimatedCard(f: Form)
    requires !Blank(f.name) && !Blank(f.description)
    ensures Submit(f).Submitted?
    ensures var sub := Submit(f);
      var d := MainBoard.NewCardDraft(sub.name, sub.description, sub.mediaUrls);
      && d.storypoints == 0 && sub.storyPoints == 0
      && d.name == f.name && d.description == f.description
      && |d.media| == |f.media|
      && forall i :: 0 <= i < |f.media| ==> d.media[i] == MediaUrl(f.media[i])
  {
  }
}
