/**
 * The header handling of `Base64ImageField.to_internal_value`: a string
 * starting with `data:image` is split on `;base64,` into exactly two parts,
 * the image extension is what follows the last `/` of the first part, and the
 * second part is the base64 payload (kept opaque here), to be stored under
 * the name `temp.<extension>`. Any other value goes to the image field as it is.
 * The string splitting follows Python's `str.split` with an explicit separator.
 */
module DataUri {
  import opened Wrappers

  const ImagePrefix: string := "data:image"
  const Base64Marker: string := ";base64,"
  const TempName: string := "temp."

  /** `sep` occurs in `s` starting at index `i`. */
  predicate Occurs(s: string, sep: string, i: int) {
    0 <= i && i + |sep| <= |s| && s[i..i + |sep|] == sep
  }

  predicate Contains(s: string, sep: string) {
    exists i :: 0 <= i <= |s| && Occurs(s, sep, i)
  }

  predicate StartsWith(s: string, prefix: string) {
    |prefix| <= |s| && s[..|prefix|] == prefix
  }

  predicate EndsWith(s: string, suffix: string) {
    |suffix| <= |s| && s[|s| - |suffix|..] == suffix
  }

  /** The first occurrence of `sep` in `s` at or after `from`, as `str.find` would report it. */
  function IndexFrom(s: string, sep: string, from: nat): (r: Option<nat>)
    requires |sep| > 0 && from <= |s|
    ensures r.Some? ==> from <= r.value && Occurs(s, sep, r.value)
    ensures r.Some? ==> forall j :: from <= j < r.value ==> !Occurs(s, sep, j)
    ensures r.None? ==> forall j :: from <= j ==> !Occurs(s, sep, j)
    decreases |s| - from
  {
    if from + |sep| > |s| then None
    else if s[from..from + |sep|] == sep then Some(from)
    else IndexFrom(s, sep, from + 1)
  }

  /** The pieces of `s[from..]` between the occurrences of `sep`, scanning left to right. */
  function SplitFrom(s: string, sep: string, from: nat): (parts: seq<string>)
    requires |sep| > 0 && from <= |s|
    ensures |parts| >= 1
    decreases |s| - from
  {
    match IndexFrom(s, sep, from)
    case None => [s[from..]]
    case Some(i) => [s[from..i]] + SplitFrom(s, sep, i + |sep|)
  }

  /** Python's `s.split(sep)`. */
  function Split(s: string, sep: string): (parts: seq<string>)
    requires |sep| > 0
    ensures |parts| >= 1
    ensures Join(parts, sep) == s
    ensures forall k :: 0 <= k < |parts| ==> !Contains(parts[k], sep)
  {
    SplitFromJoin(s, sep, 0);
    SplitFromPartsFree(s, sep, 0);
    SplitFrom(s, sep, 0)
  }

  /** Python's `sep.join(parts)`. */
  function Join(parts: seq<string>, sep: string): string
    requires |parts| >= 1
  {
    if |parts| == 1 then parts[0] else parts[0] + sep + Join(parts[1..], sep)
  }

  /** Splitting loses nothing: joining the parts with the separator gives the string back. */
  lemma {:induction false} SplitFromJoin(s: string, sep: string, from: nat)
    requires |sep| > 0 && from <= |s|
    ensures Join(SplitFrom(s, sep, from), sep) == s[from..]
    decreases |s| - from
  {
    match IndexFrom(s, sep, from)
    case None =>
    case Some(i) =>
      var rest := SplitFrom(s, sep, i + |sep|);
      var parts := [s[from..i]] + rest;
      assert SplitFrom(s, sep, from) == parts;
      assert parts[1..] == rest;
      SplitFromJoin(s, sep, i + |sep|);
      CutAtOccurrence(s, sep, from, i);
  }

  /** A string cut around an occurrence of the separator. */
  lemma CutAtOccurrence(s: string, sep: string, from: nat, i: nat)
    requires from <= i && Occurs(s, sep, i)
    ensures s[from..] == s[from..i] + sep + s[i + |sep|..]
  {
  }

  /** No part of a split contains the separator. */
  lemma {:induction false} SplitFromPartsFree(s: string, sep: string, from: nat)
    requires |sep| > 0 && from <= |s|
    ensures forall k :: 0 <= k < |SplitFrom(s, sep, from)| ==> !Contains(SplitFrom(s, sep, from)[k], sep)
    decreases |s| - from
  {
    var parts := SplitFrom(s, sep, from);
    match IndexFrom(s, sep, from)
    case None =>
      NoOccurrenceInSlice(s, sep, from, |s|);
      assert s[from..|s|] == s[from..];
    case Some(i) =>
      SplitFromPartsFree(s, sep, i + |sep|);
      NoOccurrenceInSlice(s, sep, from, i);
      assert parts[1..] == SplitFrom(s, sep, i + |sep|);
  }

  /** A slice holds an occurrence only where the whole string does. */
  lemma NoOccurrenceInSlice(s: string, sep: string, lo: nat, hi: nat)
    requires |sep| > 0 && lo <= hi <= |s|
    requires forall j :: lo <= j < hi ==> !Occurs(s, sep, j)
    ensures !Contains(s[lo..hi], sep)
  {
    forall i | 0 <= i <= hi - lo ensures !Occurs(s[lo..hi], sep, i) {
      if i + |sep| <= hi - lo {
        var window := s[lo..hi][i..i + |sep|];
        forall m | 0 <= m < |sep| ensures window[m] == s[lo + i..lo + i + |sep|][m] {
          assert window[m] == s[lo + i + m];
        }
        assert window == s[lo + i..lo + i + |sep|];
        assert !Occurs(s, sep, lo + i);
      }
    }
  }

  /**
   * When the separator's first character appears nowhere else, a string made
   * of two pieces around one separator splits into exactly those two pieces.
   */
  lemma SplitAroundOne(a: string, sep: string, b: string)
    requires |sep| > 0
    requires forall k :: 0 <= k < |a| ==> a[k] != sep[0]
    requires forall k :: 0 <= k < |b| ==> b[k] != sep[0]
    ensures Split(a + sep + b, sep) == [a, b]
  {
    var s := a + sep + b;
    assert Occurs(s, sep, |a|) by { assert s[|a|..|a| + |sep|] == sep; }
    forall j | 0 <= j < |a| ensures !Occurs(s, sep, j) {
      assert s[j] == a[j];
    }
    assert IndexFrom(s, sep, 0) == Some(|a|);
    var after := |a| + |sep|;
    forall j | after <= j ensures !Occurs(s, sep, j) {
      if j < |s| {
        assert s[j] == b[j - after];
      }
    }
    assert IndexFrom(s, sep, after) == None;
    assert SplitFrom(s, sep, after) == [b] by { assert s[after..] == b; }
    assert s[0..|a|] == a;
  }

  /**
   * The last part of a split is a suffix of the string that begins either
   * where the split began or right after an occurrence of the separator.
   */
  lemma {:induction false} LastPartAfterSeparator(s: string, sep: string, from: nat)
    requires |sep| > 0 && from <= |s|
    ensures LastPartShape(s, sep, from, Last(SplitFrom(s, sep, from)))
    decreases |s| - from
  {
    match IndexFrom(s, sep, from)
    case None =>
      assert Last(SplitFrom(s, sep, from)) == s[from..];
    case Some(i) =>
      var rest := SplitFrom(s, sep, i + |sep|);
      var parts := [s[from..i]] + rest;
      assert SplitFrom(s, sep, from) == parts;
      assert Last(parts) == Last(rest);
      LastPartAfterSeparator(s, sep, i + |sep|);
      ShapeWidens(s, sep, from, i, Last(rest));
  }

  /** A last part shaped from just after an occurrence at `i` is also shaped from any earlier start. */
  lemma ShapeWidens(s: string, sep: string, from: nat, i: nat, last: string)
    requires from <= i && Occurs(s, sep, i)
    requires LastPartShape(s, sep, i + |sep|, last)
    ensures LastPartShape(s, sep, from, last)
  {
  }

  function Last(parts: seq<string>): string
    requires |parts| >= 1
  {
    parts[|parts| - 1]
  }

  /** `last` is a suffix of `s` starting at `from` or right after an occurrence of `sep`. */
  predicate LastPartShape(s: string, sep: string, from: nat, last: string) {
    && from <= |s| - |last|
    && s[|s| - |last|..] == last
    && (|s| - |last| == from || Occurs(s, sep, |s| - |last| - |sep|))
  }

  /** `format.split('/')[-1]`: the text after the last `/`, or the whole string when there is none. */
  function Extension(format: string): (ext: string)
    ensures !Contains(ext, "/")
    ensures EndsWith(format, ext)
    ensures |ext| == |format| || format[|format| - |ext| - 1] == '/'
  {
    var parts := Split(format, "/");
    SplitFromPartsFree(format, "/", 0);
    LastPartAfterSeparator(format, "/", 0);
    var ext := Last(parts);
    assert |ext| < |format| ==> format[|format| - |ext| - 1..|format| - |ext|][0] == format[|format| - |ext| - 1];
    ext
  }

  /** The value handed to the image field: a multipart upload or a JSON string. */
  datatype ImageInput = Upload(content: seq<int>) | Text(text: string)

  /** What `to_internal_value` passes on: the input as it came, or a named file from a data URI. */
  datatype ImageValue = Unchanged(input: ImageInput) | NamedFile(name: string, payload: string)

  /**
   * The unpacking `format, imgstr = data.split(';base64,')` needs exactly two
   * parts; otherwise Python raises a `ValueError`, not a validation error.
   */
  datatype ImageError = UnpackMismatch(parts: nat)

  /** `Base64ImageField.to_internal_value`, up to (and not including) decoding the payload. */
  function ToInternalValue(data: ImageInput): (r: Result<ImageValue, ImageError>)
    ensures !(data.Text? && StartsWith(data.text, ImagePrefix)) ==> r == Success(Unchanged(data))
    ensures r.Success? && r.value.NamedFile? ==>
              && data.Text? && StartsWith(data.text, ImagePrefix)
              && (exists header :: data.text == header + Base64Marker + r.value.payload
                                   && !Contains(header, Base64Marker))
              && !Contains(r.value.payload, Base64Marker)
              && StartsWith(r.value.name, TempName)
              && !Contains(r.value.name[|TempName|..], "/")
    ensures r.Failure? ==> data.Text? && StartsWith(data.text, ImagePrefix) && r.error.parts != 2
    ensures data.Text? && StartsWith(data.text, ImagePrefix) ==>
              (r.Failure? <==> |Split(data.text, Base64Marker)| != 2)
    ensures r.Failure? ==> r.error == UnpackMismatch(|Split(data.text, Base64Marker)|)
    ensures r.Success? && data.Text? && StartsWith(data.text, ImagePrefix) ==>
              && |Split(data.text, Base64Marker)| == 2
              && r.value == NamedFile(TempName + Extension(Split(data.text, Base64Marker)[0]),
                                      Split(data.text, Base64Marker)[1])
  {
    if data.Text? && StartsWith(data.text, ImagePrefix) then
      var parts := Split(data.text, Base64Marker);
      if |parts| != 2 then Failure(UnpackMismatch(|parts|))
      else
        SplitFromJoin(data.text, Base64Marker, 0);
        SplitFromPartsFree(data.text, Base64Marker, 0);
        assert Join(parts, Base64Marker) == parts[0] + Base64Marker + parts[1];
        assert !Contains(parts[0], Base64Marker) && !Contains(parts[1], Base64Marker);
        var ext := Extension(parts[0]);
        assert (TempName + ext)[|TempName|..] == ext;
        Success(NamedFile(TempName + ext, parts[1]))
    else
      Success(Unchanged(data))
  }

  /** `data:image/<ext>;base64,<payload>`, the form a client sends. */
  function DataUri(ext: string, payload: string): string {
    ImagePrefix + "/" + ext + Base64Marker + payload
  }

  /**
   * Round trip: a data URI built from an extension without `/` or `;` and a
   * base64 payload (whose alphabet has no `;`) comes back as the payload
   * under the name `temp.<ext>`.
   */
  lemma DataUriRoundTrip(ext: string, payload: string)
    requires forall k :: 0 <= k < |ext| ==> ext[k] != '/' && ext[k] != ';'
    requires forall k :: 0 <= k < |payload| ==> payload[k] != ';'
    ensures ToInternalValue(Text(DataUri(ext, payload))) == Success(NamedFile(TempName + ext, payload))
  {
    var header := ImagePrefix + "/" + ext;
    var s := DataUri(ext, payload);
    assert s == header + Base64Marker + payload;
    assert StartsWith(s, ImagePrefix) by { assert s[..|ImagePrefix|] == ImagePrefix; }
    forall k | 0 <= k < |header| ensures header[k] != Base64Marker[0] {
      if k >= |ImagePrefix| + 1 {
        assert header[k] == ext[k - |ImagePrefix| - 1];
      }
    }
    SplitAroundOne(header, Base64Marker, payload);
    SplitAroundOne(ImagePrefix, "/", ext);
  }

  /** A data-image string without the `;base64,` marker fails the two-part unpacking. */
  lemma MissingMarkerRejected(text: string)
    requires StartsWith(text, ImagePrefix) && !Contains(text, Base64Marker)
    ensures ToInternalValue(Text(text)) == Failure(UnpackMismatch(1))
  {
  }
}
