/** The two catalogs the page loads: courses and internships. */
module Catalog {
  import opened Common

  /** One catalog record. `rating` (a floating-point score shown on course
      cards) is not part of the model. A missing `skills` / `requirements` /
      `salary` property is `None`. */
  datatype Item =
    | Course(id: int, title: string, description: string, category: string, level: string,
             url: string, icon: string, provider: string, duration: string,
             skills: Option<seq<string>>)
    | Internship(id: int, title: string, description: string, category: string, level: string,
                 url: string, icon: string, company: string, location: string, duration: string,
                 paid: bool, salary: Option<string>, requirements: Option<seq<string>>)

  /** The loaded data: `coursesData` and `internshipsData`. */
  datatype Catalog = Catalog(courses: seq<Item>, internships: seq<Item>)
}
