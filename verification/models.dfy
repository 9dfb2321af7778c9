/** The one table of the upload path. */
module Models {
  import opened Exceptions

  /** A row of the `image` table. `id` is empty until the store assigns it;
      `size` is the stored file's byte length; `path` is the text of its
      location. The two timestamps are left out. */
  datatype Image = Image(id: Option<int>, uuid: string, name: string, size: int, extension: string, path: string)
}
