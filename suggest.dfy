/** The suggestion form: attached files are merged without duplicates and capped,
    the length and size limits are flagged, the location must be one of the
    study rooms, and each image upload tries several request shapes in turn. */
module Suggest {
  import opened Wrappers
  import opened Text
  import opened Seqs

  const MaxTitle := 20
  const MaxContent := 3000
  const MaxFiles := 5
  const MaxTotalSize := 30 * 1024 * 1024

  const Categories: seq<string> := ["분실물", "기물파손", "시설고장", "소음공해", "기타"]
  /** The location labels of the select. */
  const Places: seq<string> := ["스터디룸 1", "스터디룸 2", "스터디룸 3", "스터디룸 4", "스터디룸 5"]
  /** The location values the server accepts. */
  const AllowedLocations: seq<string> := ["스터디룸1", "스터디룸2", "스터디룸3", "스터디룸4", "스터디룸5"]

  /** A picked file, as far as the page looks at it. `modified` stands for
      everything else about the file, which the duplicate test ignores. */
  datatype FileInfo = FileInfo(name: string, size: nat, modified: int)

  /** Two files count as the same when name and size agree. */
  function FileKey(f: FileInfo): (string, nat) {
    (f.name, f.size)
  }

  /** No two files share name and size. */
  ghost predicate DistinctFiles(s: seq<FileInfo>) {
    forall i, j :: 0 <= i < j < |s| ==> FileKey(s[i]) != FileKey(s[j])
  }

  /** `files.reduce((acc, f) => acc + f.size, 0)`. */
  function TotalSize(s: seq<FileInfo>): nat
    decreases |s|
  {
    if s == [] then 0 else TotalSize(s[..|s| - 1]) + s[|s| - 1].size
  }

  /** The files of `handleFileChange`: the current ones, then the new ones, with
      each later file sharing name and size with an earlier one dropped, cut to
      the first five. */
  function MergeFiles(files: seq<FileInfo>, selected: seq<FileInfo>): (r: seq<FileInfo>)
    ensures |r| <= MaxFiles
    ensures DistinctFiles(r)
    ensures forall f :: f in r ==> f in files || f in selected
  {
    var d := DedupBy(files + selected, FileKey);
    DedupByDistinct(files + selected, FileKey);
    if |d| <= MaxFiles then d
    else
      assert forall f :: f in d[..MaxFiles] ==> f in d;
      d[..MaxFiles]
  }

  /** Files already attached keep their places when the list was merged before:
      its first entries are exactly the old files. */
  lemma MergeFilesKeepsExisting(files: seq<FileInfo>, selected: seq<FileInfo>)
    requires DistinctFiles(files) && |files| <= MaxFiles
    ensures |MergeFiles(files, selected)| >= |files|
    ensures MergeFiles(files, selected)[..|files|] == files
  {
    DedupByPrefix(files, selected, FileKey);
  }

  /** When at most five different files are involved, none is lost: every
      name-and-size pair of the old and new files is attached afterwards. */
  lemma MergeFilesKeepsAll(files: seq<FileInfo>, selected: seq<FileInfo>)
    requires |DedupBy(files + selected, FileKey)| <= MaxFiles
    ensures KeySet(MergeFiles(files, selected), FileKey) == KeySet(files + selected, FileKey)
  {
    DedupByKeys(files + selected, FileKey);
  }

  /** Picking a file that is already attached changes nothing. */
  lemma MergeFilesDuplicate(files: seq<FileInfo>, f: FileInfo)
    requires DistinctFiles(files) && |files| <= MaxFiles
    requires exists g :: g in files && FileKey(g) == FileKey(f)
    ensures MergeFiles(files, [f]) == files
  {
    var g :| g in files && FileKey(g) == FileKey(f);
    assert FileKey(f) in KeySet(files, FileKey);
    var s := files + [f];
    assert s[..|s| - 1] == files && s[|s| - 1] == f;
    assert DedupBy(s, FileKey) == DedupBy(files, FileKey);
    DedupByIdentity(files, FileKey);
  }

  /** The predicate of `removeFile`: keeps the files not matching name and size. */
  function Keeps(name: string, size: nat): FileInfo -> bool {
    (f: FileInfo) => !(f.name == name && f.size == size)
  }

  /** `normalizeLocation`: all white space removed. */
  function NormalizeLocation(place: string): (r: string)
    ensures forall i :: 0 <= i < |r| ==> !IsSpace(r[i])
  {
    RemoveSpaces(place)
  }

  predicate LocationAllowed(place: string) {
    NormalizeLocation(place) in AllowedLocations
  }

  /** A room label `<room> <n>` normalises to `<room><n>`. */
  lemma {:induction false} RoomLabel(room: string, d: char)
    requires forall i :: 0 <= i < |room| ==> !IsSpace(room[i])
    requires !IsSpace(d)
    ensures RemoveSpaces(room + " " + [d]) == room + [d]
  {
    RemoveSpacesFixed(room);
    RemoveSpacesConcat(room + " ", [d]);
    RemoveSpacesConcat(room, " ");
    RemoveSpacesFixed([d]);
    assert RemoveSpaces(" ") == [];
  }

  /** Every label the select offers is accepted, so `createSuggestion` never
      throws for a location chosen in the form. */
  lemma PlacesAllowed()
    ensures forall i :: 0 <= i < |Places| ==> LocationAllowed(Places[i])
  {
    var room := "스터디룸";
    assert !IsSpace(room[0]) && !IsSpace(room[1]) && !IsSpace(room[2]) && !IsSpace(room[3]);
    assert |room| == 4;
    var digits := "12345";
    forall i | 0 <= i < |Places| ensures LocationAllowed(Places[i]) {
      RoomLabel(room, digits[i]);
      assert Places[i] == room + " " + [digits[i]];
      assert AllowedLocations[i] == room + [digits[i]];
    }
  }

  const TitleRequiredMsg := "제목을 입력해 주세요."
  const ContentRequiredMsg := "내용을 입력해 주세요."
  const SubmittedMsg := "건의가 정상적으로 접수되었어요."

  /** The message `createSuggestion` throws for a location outside the list, which
      `parseError` shows as it is. */
  function LocationErrorMsg(place: string): string {
    "유효하지 않은 위치 값입니다: '" + place + "'. 유효한 값: 스터디룸1, 스터디룸2, 스터디룸3, 스터디룸4, 스터디룸5"
  }

  /** One upload request's answer: accepted with its data, or refused with the
      HTTP status, absent when there was no response. */
  datatype Attempt = Accepted(data: int) | Refused(status: Option<int>)

  /** `if (status && status >= 500) break;`: a server error ends the retries. */
  predicate Fatal(a: Attempt) {
    a.Refused? && a.status.Some? && a.status.value >= 500
  }

  /** The number of request shapes `uploadSingleImage` tries. */
  const AttemptCount := 6

  datatype UploadOutcome = NoFile | Uploaded(data: int) | Rethrown(last: Attempt)

  /** The retries from shape `i` on: the first accepted shape wins; a fatal refusal,
      or running out of shapes, rethrows the last refusal. */
  function Upload(response: nat -> Attempt, i: nat): UploadOutcome
    requires i < AttemptCount
    decreases AttemptCount - i
  {
    var a := response(i);
    if a.Accepted? then Uploaded(a.data)
    else if Fatal(a) || i + 1 == AttemptCount then Rethrown(a)
    else Upload(response, i + 1)
  }

  /** Shape `k` is the first accepted one from shape `i` on, and every shape
      before it was refused without a server error. */
  ghost predicate FirstAccepted(response: nat -> Attempt, i: nat, k: nat) {
    i <= k < AttemptCount && response(k).Accepted? &&
    forall j :: i <= j < k ==> response(j).Refused? && !Fatal(response(j))
  }

  /** The upload succeeds exactly when some shape is accepted and every shape
      before it was refused without a server error; otherwise the last refusal
      is rethrown. */
  lemma {:induction false} UploadSucceeds(response: nat -> Attempt, i: nat)
    requires i < AttemptCount
    ensures Upload(response, i).Uploaded? <==> exists k :: FirstAccepted(response, i, k)
    ensures Upload(response, i).Uploaded? || Upload(response, i).Rethrown?
    decreases AttemptCount - i
  {
    var a := response(i);
    if a.Accepted? {
      assert FirstAccepted(response, i, i);
    } else if Fatal(a) || i + 1 == AttemptCount {
      forall k: nat ensures !FirstAccepted(response, i, k) {
      }
    } else {
      UploadSucceeds(response, i + 1);
      forall k: nat ensures FirstAccepted(response, i, k) <==> FirstAccepted(response, i + 1, k) {
        if FirstAccepted(response, i, k) {
          assert k != i;
        }
      }
      var n := i + 1;
      if exists k :: FirstAccepted(response, n, k) {
        var k :| FirstAccepted(response, n, k);
        assert FirstAccepted(response, i, k);
      }
      assert Upload(response, i) == Upload(response, n);
    }
  }

  /** `uploadSingleImage`: no file gives no request; otherwise the shapes are
      posted in order until one is accepted or a server error stops the loop,
      and the last refusal is rethrown. `tried` is the number of requests made. */
  method UploadSingleImage(file: Option<FileInfo>, response: nat -> Attempt)
    returns (outcome: UploadOutcome, tried: nat)
    ensures file.None? ==> outcome == NoFile && tried == 0
    ensures file.Some? ==> outcome == Upload(response, 0)
    ensures file.Some? ==> 1 <= tried <= AttemptCount
    ensures file.Some? ==> forall j :: 0 <= j < tried - 1 ==> response(j).Refused? && !Fatal(response(j))
    ensures file.Some? ==>
      response(tried - 1).Accepted? || Fatal(response(tried - 1)) || tried == AttemptCount
    ensures file.Some? && response(tried - 1).Accepted? ==> outcome == Uploaded(response(tried - 1).data)
    ensures file.Some? && response(tried - 1).Refused? ==> outcome == Rethrown(response(tried - 1))
  {
    if file.None? {
      return NoFile, 0;
    }
    var lastErr := Refused(None);
    var i := 0;
    while i < AttemptCount
      invariant 0 <= i <= AttemptCount
      invariant forall j :: 0 <= j < i ==> response(j).Refused? && !Fatal(response(j))
      invariant i < AttemptCount ==> Upload(response, 0) == Upload(response, i)
      invariant i == AttemptCount ==> lastErr == response(i - 1) && Upload(response, 0) == Rethrown(lastErr)
    {
      var a := response(i);
      if a.Accepted? {
        return Uploaded(a.data), i + 1;
      }
      lastErr := a;
      if Fatal(a) {
        return Rethrown(lastErr), i + 1;
      }
      i := i + 1;
    }
    outcome, tried := Rethrown(lastErr), AttemptCount;
  }

  /** The suggestion form's state. */
  class Form {
    var category: string
    var place: string
    var title: string
    var content: string
    var files: seq<FileInfo>
    var submitting: bool
    var errorMsg: string
    var successMsg: string
    var uploadProgress: map<string, int>

    /** `hasError`, the flag that blocks the submit button: the title is over 20
        characters, the content over 3000, more than five files, or more than
        30 MiB in total. */
    predicate HasError()
      reads this
    {
      |title| > MaxTitle || |content| > MaxContent || |files| > MaxFiles || TotalSize(files) > MaxTotalSize
    }

    constructor()
      ensures category == Categories[0] && place == Places[0]
      ensures title == "" && content == "" && files == [] && uploadProgress == map[]
      ensures !submitting && errorMsg == "" && successMsg == ""
      ensures !HasError()
    {
      category, place := Categories[0], Places[0];
      title, content, files := "", "", [];
      submitting, errorMsg, successMsg := false, "", "";
      uploadProgress := map[];
    }

    /** `handleFileChange`: the picked files are merged in; the result never has
        more than five files nor a repeated name and size. */
    method HandleFileChange(selected: seq<FileInfo>)
      modifies this
      ensures files == MergeFiles(old(files), selected)
      ensures |files| <= MaxFiles && DistinctFiles(files)
      ensures title == old(title) && content == old(content) && place == old(place) && category == old(category)
      ensures uploadProgress == old(uploadProgress) && errorMsg == old(errorMsg) && successMsg == old(successMsg)
      ensures submitting == old(submitting)
    {
      files := MergeFiles(files, selected);
    }

    /** `removeFile`: every file with that name and size goes, the rest keep their
        order, and the name's progress entry is deleted. */
    method RemoveFile(name: string, size: nat)
      modifies this
      ensures files == Filter(old(files), Keeps(name, size))
      ensures uploadProgress == old(uploadProgress) - {name}
      ensures title == old(title) && content == old(content) && place == old(place) && category == old(category)
      ensures errorMsg == old(errorMsg) && successMsg == old(successMsg) && submitting == old(submitting)
    {
      files := Filter(files, Keeps(name, size));
      uploadProgress := uploadProgress - {name};
    }

    /** `submit`. Both messages are cleared first. With `hasError` nothing else
        happens; a blank title, and then a blank content, sets its message and
        sends nothing. Otherwise a location outside the list fails before any
        request; then the suggestion is posted (`created` is `None` on success,
        or the shown error text) and, when files are attached, the images are
        uploaded (`uploaded` likewise). Success resets the form. */
    method Submit(created: Option<string>, uploaded: Option<string>) returns (posted: bool)
      modifies this
      ensures posted <==> (!old(HasError()) && !Blank(old(title)) && !Blank(old(content)) &&
        LocationAllowed(old(place)))
      ensures old(HasError()) ==> (errorMsg == "" && successMsg == "" &&
        title == old(title) && content == old(content) && files == old(files))
      ensures !old(HasError()) && Blank(old(title)) ==> errorMsg == TitleRequiredMsg && successMsg == ""
      ensures !old(HasError()) && !Blank(old(title)) && Blank(old(content)) ==>
        errorMsg == ContentRequiredMsg && successMsg == ""
      ensures !old(HasError()) && !Blank(old(title)) && !Blank(old(content)) && !LocationAllowed(old(place)) ==>
        errorMsg == LocationErrorMsg(old(place)) && successMsg == ""
      ensures posted && created.Some? ==> errorMsg == created.value && successMsg == "" && files == old(files)
      ensures posted && created.None? && old(files) != [] && uploaded.Some? ==>
        errorMsg == uploaded.value && successMsg == "" && files == old(files)
      ensures posted && created.None? && (old(files) == [] || uploaded.None?) ==>
        successMsg == SubmittedMsg && errorMsg == "" && title == "" && content == "" && files == [] &&
        uploadProgress == map[]
      ensures !posted ==> (title == old(title) && content == old(content) && files == old(files) &&
        uploadProgress == old(uploadProgress))
      ensures place == old(place) && category == old(category)
      ensures old(HasError()) || Blank(old(title)) || Blank(old(content)) ==> submitting == old(submitting)
      ensures !old(HasError()) && !Blank(old(title)) && !Blank(old(content)) ==> !submitting
    {
      errorMsg, successMsg := "", "";
      posted := false;
      if HasError() {
        return;
      }
      if Blank(title) {
        errorMsg := TitleRequiredMsg;
        return;
      }
      if Blank(content) {
        errorMsg := ContentRequiredMsg;
        return;
      }
      submitting := true;
      if !LocationAllowed(place) {
        errorMsg := LocationErrorMsg(place);
      } else {
        posted := true;
        if created.Some? {
          errorMsg := created.value;
        } else if files != [] && uploaded.Some? {
          errorMsg := uploaded.value;
        } else {
          successMsg := SubmittedMsg;
          title, content, files := "", "", [];
          uploadProgress := map[];
        }
      }
      submitting := false;
    }
  }
}
