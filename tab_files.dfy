// The constant table that describes every tab the editor can show.
module TabFiles {

  /** What the page knows about one tab: the file name shown on the tab and in
      the breadcrumb, the icon class of the tab, and the language label of the
      status bar. */
  datatype Info = Info(file: string, icon: string, fileType: string)

  const TabFileMap: map<string, Info> := map[
    "about"       := Info("about.html",     "html-icon", "HTML"),
    "projects"    := Info("projects.js",    "js-icon",   "JavaScript"),
    "skills"      := Info("skills.json",    "json-icon", "JSON"),
    "experience"  := Info("experience.ts",  "ts-icon",   "TypeScript"),
    "contact"     := Info("contact.css",    "css-icon",  "CSS"),
    "ml-projects" := Info("ml_projects.py", "py-icon",   "Python"),
    "fullstack"   := Info("fullstack.jsx",  "jsx-icon",  "React JSX")
  ]

  /** The table has seven entries; the default tab and the one of the worked
      example are among them, with the values the breadcrumb and status bar show. */
  lemma TableContents()
    ensures |TabFileMap| == 7
    ensures "about" in TabFileMap && TabFileMap["about"].file == "about.html" && TabFileMap["about"].fileType == "HTML"
    ensures "skills" in TabFileMap && TabFileMap["skills"].file == "skills.json" && TabFileMap["skills"].fileType == "JSON"
  {
    assert TabFileMap.Keys == {"about", "projects", "skills", "experience", "contact", "ml-projects", "fullstack"};
  }
}
