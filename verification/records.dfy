/** What the sidebar and sitemap records share. */
module Records {

  /** Framework-defined fields the callbacks never read; they pass through. */
  type Extra = map<string, string>
}
