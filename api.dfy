/** The post-processing `fetchPosts` applies to the posts it downloads:
    `transformTitle` and `transformBody` replace the placeholder text by an
    entry of a fixed table chosen by the post's id, and the posts are mapped
    through both. */
module Api {

  /** A post as the placeholder API delivers it. */
  datatype Post = Post(id: int, title: string, body: string, userId: int)

  /** The replacement titles, indexed by `id % 15`. */
  const Titles: seq<string> := [
    "How Redis Caching Improves Application Performance",
    "Building Scalable Web Applications with Next.js",
    "The Benefits of Server-Side Rendering in React",
    "Understanding Client-Side vs Server-Side Rendering",
    "Implementing Efficient Caching Strategies",
    "Optimizing API Calls with Redis",
    "Modern Web Development with TypeScript",
    "Creating Responsive UIs with Tailwind CSS",
    "The Power of App Router in Next.js",
    "Performance Metrics: What to Measure and Why",
    "Reducing Load Times in Web Applications",
    "Web Optimization Techniques for 2025",
    "Building with the Latest React Features",
    "How to Configure Redis for Production",
    "Scaling Your Web Application to Millions of Users"
  ]

  /** The replacement bodies, indexed by `id % 15`. */
  const Bodies: seq<string> := [
    "Redis caching significantly reduces API response times by storing frequently accessed data in memory. This implementation demonstrates how to integrate Redis in a Next.js application to improve overall performance and user experience.",
    "Next.js provides a powerful framework for building React applications with built-in features like server-side rendering, static site generation, and API routes. This example showcases these capabilities with practical implementation patterns.",
    "Server-side rendering improves initial page load time and SEO by delivering fully rendered HTML to the client. This approach is particularly beneficial for content-heavy applications where first contentful paint is critical.",
    "Understanding when to use client-side vs. server-side rendering is crucial for application architecture. This demo showcases both approaches and highlights their respective benefits and trade-offs.",
    "Implementing efficient caching strategies requires careful consideration of data freshness, TTL settings, and invalidation patterns. This example demonstrates a balanced approach that maintains data accuracy while maximizing performance.",
    "Redis provides low-latency access to cached data, making it an ideal solution for API response caching. This implementation shows how to properly integrate Redis caching with appropriate TTL and invalidation strategies.",
    "TypeScript enhances developer productivity through strong typing, better tooling, and improved code quality. This project demonstrates TypeScript best practices in a Next.js environment.",
    "Tailwind CSS enables rapid UI development with a utility-first approach. This application showcases responsive design patterns and component styling using Tailwind's powerful utility classes.",
    "Next.js App Router introduces a new paradigm for routing and layouts in React applications. This implementation demonstrates nested layouts, route groups, and other advanced routing concepts.",
    "Measuring the right performance metrics is essential for optimizing user experience. This application tracks and displays key metrics like server response time, time to first contentful paint, and cache hit rates.",
    "Reducing load times requires a multi-faceted approach including code splitting, asset optimization, and effective caching. This demo implements several techniques to achieve optimal loading performance.",
    "The web development landscape continues to evolve with new tools and techniques. This application demonstrates cutting-edge approaches to building fast, reliable web applications in 2025.",
    "Modern React features like Server Components, Suspense, and Concurrent Mode enable new patterns for building responsive UIs. This implementation leverages these features for an optimal user experience.",
    "Production Redis deployments require careful configuration for security, high availability, and performance. This example includes best practices for Redis configuration in production environments.",
    "Scaling web applications to millions of users requires thoughtful architecture and infrastructure decisions. This project demonstrates patterns and practices that enable horizontal scaling and high availability."
  ]

  /** JavaScript's `%` on integers: the remainder takes the sign of the
      dividend (it truncates toward zero). */
  function JsRem(a: int, n: int): int
    requires n > 0
  {
    if a >= 0 then a % n else -((-a) % n)
  }

  /** `table[id % table.length] || fallback`: the entry at the JavaScript
      remainder when that is an index holding a non-empty string, and the
      fallback otherwise (a negative index reads `undefined`). */
  function Pick(table: seq<string>, fallback: string, id: int): string
    requires |table| > 0
  {
    var i := JsRem(id, |table|);
    if 0 <= i < |table| && table[i] != "" then table[i] else fallback
  }

  /** Every entry of the table is a non-empty string. */
  predicate Filled(table: seq<string>) {
    forall i :: 0 <= i < |table| ==> table[i] != ""
  }

  /** What `Pick` answers for a table of non-empty strings: the entry at
      `id mod n` for a non-negative id; for a negative id, the fallback
      unless `n` divides it, when JavaScript computes `-0`, which indexes
      entry 0. */
  lemma PickCases(table: seq<string>, fallback: string, id: int)
    requires |table| > 0 && Filled(table)
    ensures id >= 0 ==> Pick(table, fallback, id) == table[id % |table|]
    ensures id < 0 && (-id) % |table| == 0 ==> Pick(table, fallback, id) == table[0]
    ensures id < 0 && (-id) % |table| != 0 ==> Pick(table, fallback, id) == fallback
  {
  }

  /** `Pick` answers an entry of the table or the fallback. */
  lemma PickRange(table: seq<string>, fallback: string, id: int)
    requires |table| > 0
    ensures Pick(table, fallback, id) in table || Pick(table, fallback, id) == fallback
  {
  }

  lemma TitlesFilled()
    ensures |Titles| == 15 && Filled(Titles)
  {
  }

  lemma BodiesFilled()
    ensures |Bodies| == 15 && Filled(Bodies)
  {
  }

  /** `transformTitle(title, id)`. */
  function TransformTitle(title: string, id: int): (r: string)
    ensures id >= 0 ==> r == Titles[id % 15]
    ensures id < 0 && (-id) % 15 == 0 ==> r == Titles[0]
    ensures id < 0 && (-id) % 15 != 0 ==> r == title
  {
    TitlesFilled();
    PickCases(Titles, title, id);
    Pick(Titles, title, id)
  }

  /** `transformBody(body, id)`. */
  function TransformBody(body: string, id: int): (r: string)
    ensures id >= 0 ==> r == Bodies[id % 15]
    ensures id < 0 && (-id) % 15 == 0 ==> r == Bodies[0]
    ensures id < 0 && (-id) % 15 != 0 ==> r == body
  {
    BodiesFilled();
    PickCases(Bodies, body, id);
    Pick(Bodies, body, id)
  }

  /** For a non-negative id the original title plays no part. */
  lemma TitleIgnoresText(title1: string, title2: string, id: int)
    requires id >= 0
    ensures TransformTitle(title1, id) == TransformTitle(title2, id)
  {
  }

  /** For a non-negative id the original body plays no part. */
  lemma BodyIgnoresText(body1: string, body2: string, id: int)
    requires id >= 0
    ensures TransformBody(body1, id) == TransformBody(body2, id)
  {
  }

  /** Non-negative ids 15 apart get the same title. */
  lemma TitlePeriodic(title: string, id: int)
    requires id >= 0
    ensures TransformTitle(title, id + 15) == TransformTitle(title, id)
  {
    assert (id + 15) % 15 == id % 15;
  }

  /** Non-negative ids 15 apart get the same body. */
  lemma BodyPeriodic(body: string, id: int)
    requires id >= 0
    ensures TransformBody(body, id + 15) == TransformBody(body, id)
  {
    assert (id + 15) % 15 == id % 15;
  }

  /** The title is always a table entry or the original. */
  lemma TitleRange(title: string, id: int)
    ensures TransformTitle(title, id) in Titles || TransformTitle(title, id) == title
  {
    PickRange(Titles, title, id);
  }

  /** The body is always a table entry or the original. */
  lemma BodyRange(body: string, id: int)
    ensures TransformBody(body, id) in Bodies || TransformBody(body, id) == body
  {
    PickRange(Bodies, body, id);
  }

  /** `{ ...post, title: transformTitle(...), body: transformBody(...) }`. */
  function TransformPost(p: Post): Post {
    p.(title := TransformTitle(p.title, p.id), body := TransformBody(p.body, p.id))
  }

  /** `posts.map(...)` in `fetchPosts`: one transformed post per post, in
      the same order, with the same id and author. */
  function TransformPosts(posts: seq<Post>): (r: seq<Post>)
    ensures |r| == |posts|
    ensures forall i :: 0 <= i < |posts| ==>
      && r[i].id == posts[i].id && r[i].userId == posts[i].userId
      && r[i].title == TransformTitle(posts[i].title, posts[i].id)
      && r[i].body == TransformBody(posts[i].body, posts[i].id)
  {
    if posts == [] then []
    else [TransformPost(posts[0])] + TransformPosts(posts[1..])
  }

  /** Transforming a post twice is transforming it once. */
  lemma TransformPostIdempotent(p: Post)
    ensures TransformPost(TransformPost(p)) == TransformPost(p)
  {
    var q := TransformPost(p);
    assert TransformTitle(q.title, q.id) == q.title;
    assert TransformBody(q.body, q.id) == q.body;
  }

  /** Post-processing already processed posts changes nothing. */
  lemma TransformPostsIdempotent(posts: seq<Post>)
    ensures TransformPosts(TransformPosts(posts)) == TransformPosts(posts)
  {
    var once := TransformPosts(posts);
    var twice := TransformPosts(once);
    forall i | 0 <= i < |posts| ensures twice[i] == once[i] {
      TransformPostIdempotent(posts[i]);
    }
  }
}
