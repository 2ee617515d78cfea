/** The post data model: a post is a slug plus its metadata record. */
module Types {

  datatype Option<T> = None | Some(value: T)

  /** A post's metadata. `category` is absent in the fallback record, so it is optional. */
  datatype Metadata = Metadata(title: string, publishDate: string, category: Option<string>)

  datatype Post = Post(slug: string, metadata: Metadata)
}
