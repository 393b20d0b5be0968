/** The refusals the projects service's handlers share. */
module ProjectsMessages {
  const TagExists: string := "Tag with the same name exists!"
  const TagNotFound: string := "Tag not found!"
  const ProjectExists: string := "Project with the same name exists!"
  const ProjectNotFound: string := "Project not found!"
  const WorkExists: string := "Work with the same name exists!"
  const WorkNotFound: string := "Work not found!"
  const DueBeforeStart: string := "Due date must be later or equal to start date!"
}
