/**
 * The student listing (`select.php`): the one-shot delete flash, the rows of
 * `SELECT * FROM student ORDER BY id DESC` rendered one table row each, and
 * the preview chosen for each row's stored file.
 */
module Listing {
  import opened Store
  import opened PhpStrings
  import opened Registration

  /**
   * What the File column shows: the "No file" placeholder, or a link to the
   * stored path (`href`) with an image thumbnail, the PDF label, the Word
   * label or the generic glyph.
   */
  datatype Preview =
    | NoFile
    | Image(href: string)
    | Pdf(href: string)
    | Word(href: string)
    | Generic(href: string)

  /** `in_array($file_ext, ['jpg', 'jpeg', 'png'])`: exact, case-sensitive. */
  predicate IsImageExt(ext: string) {
    ext == "jpg" || ext == "jpeg" || ext == "png"
  }

  /** `in_array($file_ext, ['doc', 'docx'])`. */
  predicate IsWordExt(ext: string) {
    ext == "doc" || ext == "docx"
  }

  /** `!empty($row['file'])`: the column is neither NULL nor "" nor "0". */
  predicate HasFile(file: Option<string>) {
    file.Some? && !Empty(file.value)
  }

  /**
   * The preview for a row's `file` column: each of the five outcomes holds
   * exactly under its own condition on the `pathinfo` extension, and every
   * link points at the stored path itself.
   */
  function PreviewOf(file: Option<string>): (p: Preview)
    ensures p.NoFile? <==> !HasFile(file)
    ensures !p.NoFile? ==> p.href == file.value
    ensures p.Image? <==> HasFile(file) && IsImageExt(PathinfoExtension(file.value))
    ensures p.Pdf? <==> HasFile(file) && PathinfoExtension(file.value) == "pdf"
    ensures p.Word? <==> HasFile(file) && IsWordExt(PathinfoExtension(file.value))
    ensures p.Generic? <==>
      (HasFile(file) && !IsImageExt(PathinfoExtension(file.value))
       && PathinfoExtension(file.value) != "pdf" && !IsWordExt(PathinfoExtension(file.value)))
  {
    if !HasFile(file) then NoFile
    else
      var path := file.value;
      var ext := PathinfoExtension(path);
      if IsImageExt(ext) then Image(path)
      else if ext == "pdf" then Pdf(path)
      else if IsWordExt(ext) then Word(path)
      else Generic(path)
  }

  /** None of the recognised extensions holds a capital letter. */
  lemma CapitalNotRecognised(ext: string, k: nat)
    requires k < |ext| && IsAsciiUpper(ext[k])
    ensures !IsImageExt(ext) && ext != "pdf" && !IsWordExt(ext)
  {
  }

  /**
   * The comparison is case-sensitive: a stored path whose extension holds a
   * capital letter (`PNG`, `Pdf`) gets the generic glyph.
   */
  lemma CapitalExtensionGeneric(path: string, k: nat)
    requires !Empty(path)
    requires k < |PathinfoExtension(path)| && IsAsciiUpper(PathinfoExtension(path)[k])
    ensures PreviewOf(Some(path)) == Generic(path)
  {
    CapitalNotRecognised(PathinfoExtension(path), k);
  }

  /** One row of the HTML table. */
  datatype TableRow =
    | StudentRow(id: int, fname: string, lname: string, email: string, preview: Preview, date: string)
    | NoStudentsRow

  /** The cells echoed for one fetched record. */
  function RowOf(s: Student): TableRow {
    StudentRow(s.id, s.fname, s.lname, s.email, PreviewOf(s.file), s.date)
  }

  /**
   * The table body for the fetched records: one row per record in fetch
   * order, or the single "No students found" row when nothing was fetched.
   */
  function Rendered(fetched: seq<Student>): (out: seq<TableRow>)
    ensures fetched == [] ==> out == [NoStudentsRow]
    ensures fetched != [] ==> |out| == |fetched| && forall i :: 0 <= i < |fetched| ==> out[i] == RowOf(fetched[i])
  {
    if fetched == [] then [NoStudentsRow]
    else seq(|fetched|, i requires 0 <= i < |fetched| => RowOf(fetched[i]))
  }

  /** Lines 149-203: the `while (mysqli_fetch_assoc)` loop, or the empty-table row. */
  method RenderRows(fetched: seq<Student>) returns (out: seq<TableRow>)
    ensures out == Rendered(fetched)
  {
    if |fetched| > 0 {
      out := [];
      var i := 0;
      while i < |fetched|
        invariant 0 <= i <= |fetched|
        invariant |out| == i
        invariant forall k :: 0 <= k < i ==> out[k] == RowOf(fetched[k])
      {
        out := out + [RowOf(fetched[i])];
        i := i + 1;
      }
    } else {
      out := [NoStudentsRow];
    }
  }

  /**
   * The page: the delete flash is shown when set and removed from the session
   * (lines 126-130), then the table is queried newest first and rendered.
   */
  method RenderListing(session: Session, table: StudentTable) returns (flash: Option<string>, out: seq<TableRow>)
    modifies session`deleted
    ensures flash == old(session.deleted)
    ensures session.deleted == None
    ensures out == Rendered(OrderByIdDesc(table.rows))
  {
    flash := None;
    if session.deleted.Some? {
      flash := session.deleted;
      session.deleted := None;
    }
    var fetched := OrderByIdDesc(table.rows);
    out := RenderRows(fetched);
  }

  /** Rendering a strictly descending fetch gives student rows whose ids strictly decrease. */
  lemma RenderedDescending(fetched: seq<Student>)
    requires StrictlyDescending(fetched)
    ensures forall i, j :: 0 <= i < j < |Rendered(fetched)| ==>
      Rendered(fetched)[i].StudentRow? && Rendered(fetched)[i].id > Rendered(fetched)[j].id
  {
    var out := Rendered(fetched);
    if fetched != [] {
      forall i, j | 0 <= i < j < |out| ensures out[i].StudentRow? && out[i].id > out[j].id {
        assert out[i] == RowOf(fetched[i]) && out[j] == RowOf(fetched[j]);
      }
    }
  }

  /** Every fetched record has its row in the rendered table. */
  lemma RenderedShowsEach(fetched: seq<Student>, s: Student)
    requires s in multiset(fetched)
    ensures RowOf(s) in Rendered(fetched)
  {
    var m :| 0 <= m < |fetched| && fetched[m] == s;
    assert Rendered(fetched)[m] == RowOf(s);
  }

  /**
   * For a table with distinct ids, the listing has the "No students found"
   * row exactly when the table is empty; otherwise it has one row per
   * record, every record appears, and ids strictly decrease down the page.
   */
  lemma ListingOrder(rows: seq<Student>)
    requires IdsDistinct(rows)
    ensures rows == [] <==> Rendered(OrderByIdDesc(rows)) == [NoStudentsRow]
    ensures rows != [] ==> |Rendered(OrderByIdDesc(rows))| == |rows|
    ensures rows != [] ==> forall i, j :: 0 <= i < j < |Rendered(OrderByIdDesc(rows))| ==>
      Rendered(OrderByIdDesc(rows))[i].StudentRow? && Rendered(OrderByIdDesc(rows))[i].id > Rendered(OrderByIdDesc(rows))[j].id
    ensures forall k :: 0 <= k < |rows| ==> RowOf(rows[k]) in Rendered(OrderByIdDesc(rows))
  {
    var sorted := OrderByIdDesc(rows);
    OrderByIdDescDescending(rows);
    if rows != [] {
      assert Rendered(sorted)[0] == RowOf(sorted[0]);
      RenderedDescending(sorted);
      forall k | 0 <= k < |rows| ensures RowOf(rows[k]) in Rendered(sorted) {
        assert rows[k] in multiset(rows);
        RenderedShowsEach(sorted, rows[k]);
      }
    }
  }

  /** Every allowed upload extension is one the listing recognises, and it holds no '.' or '/'. */
  lemma AllowedExtensionKnown(ext: string)
    requires IsAllowedExtension(ext)
    ensures ext != [] && '.' !in ext && '/' !in ext
    ensures IsImageExt(ext) || ext == "pdf" || IsWordExt(ext)
  {
  }

  /**
   * The path `../uploads/file_<token>.<ext>` built for an allowed extension
   * has `ext` as its `pathinfo` extension, and it is shown with the preview of that extension's category, linking to the
   * path itself: never the generic glyph, never "No file".
   */
  lemma UploadPathPreview(token: string, ext: string)
    requires IsAllowedExtension(ext)
    ensures PathinfoExtension(UploadPath(token, ext)) == ext
    ensures PreviewOf(Some(UploadPath(token, ext))) ==
              if IsImageExt(ext) then Image(UploadPath(token, ext))
              else if ext == "pdf" then Pdf(UploadPath(token, ext))
              else Word(UploadPath(token, ext))
  {
    AllowedExtensionKnown(ext);
    var pre := UploadDir + "file_" + token;
    var path := UploadPath(token, ext);
    assert path == pre + "." + ext;
    PathinfoExtensionOfSuffix(pre, ext);
    assert path[0] == '.' && |path| > 1;
  }

  /**
   * An upload the registration handler accepts is stored at
   * `../uploads/file_<token>.<ext>`, and the listing shows that path with
   * the preview of its category: never the generic glyph, never "No file".
   */
  lemma AcceptedUploadPreview(u: Option<Upload>, token: string)
    requires ExtensionAccepted(u)
    ensures var ext := UploadExtension(u.value.name);
            var path := StoredFilePath(u, token);
            PreviewOf(Some(path)) ==
              if IsImageExt(ext) then Image(path)
              else if ext == "pdf" then Pdf(path)
              else Word(path)
  {
    var ext := UploadExtension(u.value.name);
    assert StoredFilePath(u, token) == UploadPath(token, ext);
    UploadPathPreview(token, ext);
  }

  /**
   * The file a successful registration stores is shown as "No file" exactly
   * when no upload was accepted, and never with the generic glyph.
   */
  lemma RegisteredFilePreview(f: RegistrationForm, env: Environment, id: int)
    ensures PreviewOf(NewStudent(f, env, id).file).NoFile? <==> !ExtensionAccepted(f.upload)
    ensures !PreviewOf(NewStudent(f, env, id).file).Generic?
  {
    if ExtensionAccepted(f.upload) {
      AcceptedUploadPreview(f.upload, env.token);
    }
  }
}
