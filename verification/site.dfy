/** The page metadata record the HTML passes and the derivations read. */
module Site {
  import opened Util
  import opened Dates

  datatype Author = Author(name: string, href: string)

  datatype Logo = Logo(src: string, href: string, alt: string)

  /**
   * A page's metadata (`Meta`). `kind` is the page type (`page`, `index`,
   * `article`, `scrap`, ...); optional fields are `None` when absent, and a
   * missing `draft` is `false`.
   */
  datatype Meta = Meta(
    kind: string,
    title: string,
    description: Option<string>,
    href: Option<string>,
    pathname: string,
    author: Author,
    published: Option<Date>,
    modified: Option<Date>,
    draft: bool,
    image: Option<string>,
    prefetch: Option<string>)

  /** The site constants the head and structured-data derivations read. */
  datatype Constants = Constants(
    name: string,
    host: string,
    author: string,
    logoPng: string,
    logoSvg: string,
    blogRssPathname: string,
    stylesheets: seq<string>,
    sameAs: seq<string>)

  /** The values of `scripts/constants.js` and of the `sameAs` list of `scripts/structured-content.js`. */
  function WebPro(): (c: Constants)
    ensures |c.stylesheets| == 5 && |c.sameAs| == 3
  {
    Constants(
      "WebPro",
      "https://www.webpro.nl",
      "Lars Kappert",
      "/img/logo-512x512.png",
      "/img/logo.svg",
      "/blog/feed.xml",
      ["/css/fonts.css", "/css/stylesheet.css", "/css/theme-switch.css",
       "/css/hljs.github-dark-dimmed.min.css", "/css/terminal.css"],
      ["https://twitter.com/webprolific", "https://github.com/webpro",
       "https://www.linkedin.com/in/larskappert/"])
  }
}
