/**
 * The details page's department → domain table and the two normalisations its
 * matchers share (InternshipDetails.jsx).
 */
module DepartmentTable {
  import opened Wrappers
  import opened Text

  const AI := "Artificial Intelligence"

  /** The details page's department → domain table, in declaration order. */
  const DEPARTMENT_DOMAINS: seq<(string, seq<string>)> := [
    ("Computer Science", [
      "Algorithms & Data Structures", "Software Development", "Database Systems",
      "Operating Systems", "Computer Networks", "Cybersecurity", "Cloud Computing",
      "Data Science", "Computer Graphics & AR/VR", "Distributed Systems", "Theory of Computation"]),
    ("Information Technology", [
      "Web Development", "Mobile App Development", "Software Engineering",
      "Information Security", "Cloud & DevOps", "Big Data Analytics",
      "Database Management", "IT Infrastructure & Networking",
      "E-commerce & ERP Systems", "Human-Computer Interaction"]),
    ("Electrical Engineering", [
      "Power Systems", "Electrical Machines", "Control Systems",
      "Power Electronics & Drives", "Renewable Energy Systems",
      "High Voltage Engineering", "Smart Grid & Energy Management",
      "Microgrids & Distributed Generation", "Instrumentation & Measurement", "Electromagnetics"]),
    ("Electronics and Telecommunication", [
      "VLSI Design", "Embedded Systems", "Digital Signal Processing (DSP)",
      "Control Systems", "Communication Systems (Wireless, Optical, Satellite)",
      "Antennas & Microwave Engineering", "Internet of Things (IoT)",
      "Robotics & Automation", "Nanoelectronics", "Power Electronics"]),
    ("Mechanical Engineering", [
      "Design Engineering", "Thermal Engineering", "Manufacturing & Production",
      "Mechatronics", "CAD/CAM & Robotics", "Fluid Mechanics & Hydraulics",
      "Automotive Engineering", "Aerospace Engineering",
      "Energy Systems & Power Plants", "Industrial Engineering"]),
    ("Civil Engineering", [
      "Structural Engineering", "Geotechnical Engineering", "Transportation Engineering",
      "Environmental Engineering", "Construction Management", "Water Resources Engineering",
      "Surveying & Geoinformatics", "Coastal & Offshore Engineering",
      "Urban Planning & Smart Cities", "Earthquake Engineering"]),
    ("Artificial Intelligence", [
      "Machine Learning", "Deep Learning", "Natural Language Processing (NLP)",
      "Computer Vision", "Reinforcement Learning", "Neural Networks",
      "AI in Robotics", "Explainable AI", "AI in Healthcare / Finance / IoT",
      "Data Mining & Knowledge Discovery"])
  ]

  /** Property lookup `table[name]`: the first entry with that name, if any. */
  function Lookup(table: seq<(string, seq<string>)>, name: string): (r: Option<seq<string>>)
    ensures r.Some? ==> exists t :: 0 <= t < |table| && table[t] == (name, r.value)
    ensures r.None? ==> forall t :: 0 <= t < |table| ==> table[t].0 != name
  {
    if table == [] then None
    else if table[0].0 == name then Some(table[0].1)
    else Lookup(table[1..], name)
  }

  /** `DEPARTMENT_DOMAINS[userDepartment]`: `None` is `undefined`. */
  function DepartmentDomains(dept: string): Option<seq<string>> {
    Lookup(DEPARTMENT_DOMAINS, dept)
  }

  /** The names every plain object inherits from `Object.prototype`.  For them
      `DEPARTMENT_DOMAINS[name]` is not `undefined` but a function or an object:
      truthy, and without a `some` method. */
  const INHERITED_NAMES: seq<string> := [
    "constructor", "toString", "toLocaleString", "valueOf", "hasOwnProperty",
    "isPrototypeOf", "propertyIsEnumerable", "__proto__", "__defineGetter__",
    "__defineSetter__", "__lookupGetter__", "__lookupSetter__"]

  predicate Inherited(name: string) {
    name in INHERITED_NAMES
  }

  /** No inherited name is a department of the table: the departments are
      capitalised, the inherited names are not. */
  lemma InheritedNotInTable(name: string)
    ensures Inherited(name) ==> DepartmentDomains(name).None?
  {
    if Inherited(name) {
      InheritedNamesLowercase();
      DepartmentsCapitalised();
      var k :| 0 <= k < |INHERITED_NAMES| && INHERITED_NAMES[k] == name;
    }
  }

  lemma InheritedNamesLowercase()
    ensures forall k :: 0 <= k < |INHERITED_NAMES| ==>
              |INHERITED_NAMES[k]| > 0 && !('A' <= INHERITED_NAMES[k][0] <= 'Z')
  {
  }

  lemma DepartmentsCapitalised()
    ensures forall t :: 0 <= t < |DEPARTMENT_DOMAINS| ==>
              |DEPARTMENT_DOMAINS[t].0| > 0 && 'A' <= DEPARTMENT_DOMAINS[t].0[0] <= 'Z'
  {
  }

  /** Every department of the table lists at least one domain. */
  lemma KnownDepartmentHasDomains(dept: string)
    ensures DepartmentDomains(dept).Some? ==> |DepartmentDomains(dept).value| > 0
  {
    assert forall t :: 0 <= t < |DEPARTMENT_DOMAINS| ==> |DEPARTMENT_DOMAINS[t].1| > 0;
  }

  /** `domain?.toLowerCase().trim() || ''` */
  function DomainKey(d: Option<string>): string {
    match d
    case None => ""
    case Some(s) => Norm(s)
  }

  /** The AI/ML terms: a normalised domain that mentions one of them is an AI domain. */
  predicate IsAiTerm(dl: string) {
    Contains(dl, "artificial intelligence") || dl == "ai"
    || Contains(dl, "machine learning") || dl == "ml"
    || Contains(dl, "deep learning")
    || Contains(dl, "neural network")
    || Contains(dl, "computer vision")
    || Contains(dl, "natural language processing") || Contains(dl, "nlp")
  }
}
