/** The six tables the site reads and writes, one record type per table.
    Nullable columns and optional interface fields are `Option`s, except
    `created_at`, `blog_posts.published` and `testimonials.is_active`: the
    store fills those with defaults, and they are plain values here. The
    `id` column is kept apart, in `Store.Row`. */
module Schema {
  import opened Wrappers

  /** A row of `past_papers`. */
  datatype PastPaper = PastPaper(
    title: string,
    subject: string,
    paperType: string,
    year: int,
    session: string,
    questionPaperUrl: Option<string>,
    markSchemeUrl: Option<string>)

  /** A row of `video_lessons`. */
  datatype VideoLesson = VideoLesson(
    title: string,
    youtubeUrl: string,
    topic: string,
    unit: string,
    description: Option<string>,
    notesUrl: Option<string>,
    duration: Option<string>)

  /** A row of `resources`; `downloads` is a nullable counter. */
  datatype Resource = Resource(
    title: string,
    description: Option<string>,
    fileUrl: string,
    fileSize: Option<string>,
    resourceType: string,
    subject: Option<string>,
    downloads: Option<int>)

  /** A row of `blog_posts`. */
  datatype BlogPost = BlogPost(
    title: string,
    excerpt: Option<string>,
    content: string,
    tags: Option<seq<string>>,
    category: Option<string>,
    published: bool,
    publishedAt: Option<string>,
    readTime: Option<string>,
    createdAt: string)

  /** A row of `testimonials`. */
  datatype Testimonial = Testimonial(
    name: string,
    quote: string,
    imageUrl: Option<string>,
    isActive: bool,
    createdAt: string)

  /** A row of `contact_messages`; both flags are nullable. */
  datatype ContactMessage = ContactMessage(
    name: string,
    email: string,
    subject: Option<string>,
    message: string,
    isRead: Option<bool>,
    replied: Option<bool>,
    createdAt: string)
}
